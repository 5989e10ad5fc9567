/**
 * The OWIN environment: 24 flagged lazy properties and a dictionary for everything else
 * (Nowin/OwinEnvironment.cs:22-43, 120-205, Nowin/OwinEnvironment.Generated.cs:46-74, 655-1354,
 * 1456-1554), against a plain map.
 */
module Environment {
  import opened Bytes

  // ---------------------------------------------------------------------------------------
  // The built-in keys
  // ---------------------------------------------------------------------------------------

  /** The key of each bit of _flag0. */
  const NAMES: seq<string> := [
    "owin.Version", "owin.CallCancelled", "owin.RequestProtocol", "owin.RequestMethod",
    "owin.RequestScheme", "owin.RequestPathBase", "owin.RequestPath", "owin.RequestQueryString",
    "owin.RequestHeaders", "owin.RequestBody", "owin.ResponseStatusCode", "owin.ResponseReasonPhrase",
    "owin.ResponseHeaders", "owin.ResponseBody", "common.Disconnect", "ssl.ClientCertificate",
    "server.Capabilities", "server.OnSendingHeaders", "server.RemoteIpAddress", "server.RemotePort",
    "server.LocalIpAddress", "server.LocalPort", "server.IsLocal", "websocket.Accept"
  ]

  const SIZE: nat := 24

  /** The generated switch: the bits whose key has this length, in the order of the comparisons. */
  function Cases(length: nat): (bits: seq<nat>)
    ensures forall c :: 0 <= c < |bits| ==> bits[c] < SIZE
  {
    match length
    case 12 => [0]
    case 18 => [1, 3, 4]
    case 20 => [2, 5, 12]
    case 16 => [6, 9, 21, 23]
    case 23 => [7, 10, 17]
    case 19 => [8, 16]
    case 25 => [11]
    case 17 => [13, 14, 19]
    case 21 => [15, 20]
    case 22 => [18]
    case 14 => [22]
    case _ => []
  }

  /** Where in its case each bit is compared. */
  const PLACE: seq<nat> := [0, 0, 0, 1, 2, 1, 0, 0, 0, 1, 1, 0, 2, 0, 1, 0, 1, 2, 0, 2, 1, 2, 0, 3]

  lemma EveryNameHasItsCase(i: nat)
    requires i < SIZE
    ensures |NAMES| == |PLACE| == SIZE
    ensures PLACE[i] < |Cases(|NAMES[i]|)| && Cases(|NAMES[i]|)[PLACE[i]] == i
  {
    if i < 8 {
      SomeNamesHaveTheirCase(i, 0);
    } else if i < 16 {
      SomeNamesHaveTheirCase(i, 8);
    } else {
      SomeNamesHaveTheirCase(i, 16);
    }
  }

  lemma SomeNamesHaveTheirCase(i: nat, from: nat)
    requires from in {0, 8, 16} && from <= i < from + 8
    ensures |NAMES| == |PLACE| == SIZE
    ensures PLACE[i] < |Cases(|NAMES[i]|)| && Cases(|NAMES[i]|)[PLACE[i]] == i
  {
  }

  /** A character in which names of equal length differ. */
  lemma NamesDiffer(i: nat, j: nat)
    requires i < j < SIZE
    ensures |NAMES| == SIZE && NAMES[i] != NAMES[j]
  {
    var m, n := NAMES[i], NAMES[j];
    if |m| == |n| {
      EveryNameHasItsCase(i);
      EveryNameHasItsCase(j);
      assert |m| in {18, 20, 16, 23, 19, 17, 21};
      if |m| == 18 || |m| == 16 {
        assert m[5] != n[5] || m[12] != n[12];
      } else if |m| == 20 {
        assert m[7] != n[7] || m[13] != n[13];
      } else if |m| == 23 {
        assert m[0] != n[0] || m[7] != n[7];
      } else {
        assert m[0] != n[0] || m[1] != n[1];
      }
    }
  }

  function Name(i: nat): string
    requires i < SIZE
  {
    NAMES[i]
  }

  /** The bit of a built-in key, SIZE for any other key. */
  function Index(key: string): (i: nat)
    ensures i <= SIZE
    ensures i < SIZE ==> Name(i) == key
    ensures i == SIZE ==> forall j :: 0 <= j < SIZE ==> Name(j) != key
  {
    IndexFrom(key, 0)
  }

  function IndexFrom(key: string, i: nat): (r: nat)
    requires i <= SIZE
    ensures i <= r <= SIZE
    ensures r < SIZE ==> Name(r) == key
    ensures forall j :: i <= j < r ==> Name(j) != key
    decreases SIZE - i
  {
    if i == SIZE || Name(i) == key then i else IndexFrom(key, i + 1)
  }

  lemma IndexOfName(i: nat)
    requires i < SIZE
    ensures Index(Name(i)) == i
  {
    hide Index;
    var j := Index(Name(i));
    if i < j {
      NamesDiffer(i, j);
    } else if j < i {
      NamesDiffer(j, i);
    }
  }

  /** The generated switch finds every built-in key and nothing else. */
  method FindKey(key: string) returns (i: nat)
    ensures i == Index(key)
  {
    hide Name, Index, Cases;
    var bits := Cases(|key|);
    for c := 0 to |bits|
      invariant forall k :: 0 <= k < c ==> Name(bits[k]) != key
    {
      if Name(bits[c]) == key {
        IndexOfName(bits[c]);
        return bits[c];
      }
    }
    i := SIZE;
    if Index(key) < SIZE {
      NameHasItsCase(Index(key));
      assert false;
    }
  }

  lemma NameHasItsCase(i: nat)
    requires i < SIZE
    ensures |PLACE| == SIZE && PLACE[i] < |Cases(|Name(i)|)| && Cases(|Name(i)|)[PLACE[i]] == i
  {
    EveryNameHasItsCase(i);
  }

  // ---------------------------------------------------------------------------------------
  // The environment as a value
  // ---------------------------------------------------------------------------------------

  /** _flag0, _initFlag0, the 24 fields and the extra dictionary. */
  datatype Env<V> = Env(flags: seq<bool>, init: seq<bool>, values: seq<V>, extra: map<string, V>)

  predicate WellFormed<V>(e: Env<V>) {
    && |e.flags| == |e.init| == |e.values| == SIZE
    && forall i :: 0 <= i < SIZE ==> Name(i) !in e.extra
  }

  /** The lazy value of bit i, where `d` is what the callback and the handler would answer now. */
  function Shown<V>(e: Env<V>, d: seq<V>, i: nat): V
    requires WellFormed(e) && |d| == SIZE && i < SIZE
  {
    if e.init[i] then d[i] else e.values[i]
  }

  /** What a plain map would answer. */
  function Lookup<V>(e: Env<V>, d: seq<V>, key: string): Option<V>
    requires WellFormed(e) && |d| == SIZE
  {
    var i := Index(key);
    if i < SIZE then if e.flags[i] then Some(Shown(e, d, i)) else None
    else if key in e.extra then Some(e.extra[key]) else None
  }

  /** PropertiesReset: everything present, nothing read yet. */
  function Initial<V>(nil: V): (e: Env<V>)
    ensures WellFormed(e)
  {
    Env(seq(SIZE, i => true), seq(SIZE, i => true), seq(SIZE, i => nil), map[])
  }

  /** A property getter: the first read fixes the value. */
  function Pin<V>(e: Env<V>, d: seq<V>, i: nat): (e': Env<V>)
    requires WellFormed(e) && |d| == SIZE && i < SIZE
    ensures WellFormed(e')
  {
    e.(values := e.values[i := Shown(e, d, i)], init := e.init[i := false])
  }

  function Get<V>(e: Env<V>, d: seq<V>, key: string): (r: (Env<V>, Option<V>))
    requires WellFormed(e) && |d| == SIZE
    ensures WellFormed(r.0)
  {
    var i := Index(key);
    if i < SIZE && e.flags[i] then (Pin(e, d, i), Some(Shown(e, d, i)))
    else (e, if key in e.extra then Some(e.extra[key]) else None)
  }

  /** The indexer's setter. */
  function Put<V>(e: Env<V>, key: string, v: V): (e': Env<V>)
    requires WellFormed(e)
    ensures WellFormed(e')
  {
    var i := Index(key);
    if i < SIZE then e.(init := e.init[i := false], flags := e.flags[i := true], values := e.values[i := v])
    else e.(extra := e.extra[key := v])
  }

  function Delete<V>(e: Env<V>, nil: V, key: string): (e': Env<V>)
    requires WellFormed(e)
    ensures WellFormed(e')
  {
    var i := Index(key);
    if i < SIZE && e.flags[i] then e.(flags := e.flags[i := false], values := e.values[i := nil])
    else e.(extra := e.extra - {key})
  }

  /** Clear removes the properties from bit i on, then the extra entries. */
  function ClearFrom<V>(e: Env<V>, nil: V, i: nat): (e': Env<V>)
    requires WellFormed(e) && i <= SIZE
    ensures WellFormed(e')
    decreases SIZE - i
  {
    if i == SIZE then e.(extra := map[])
    else ClearFrom(if e.flags[i] then e.(flags := e.flags[i := false], values := e.values[i := nil]) else e, nil, i + 1)
  }

  /** Enumeration reads the properties from bit i on, and so fixes them. */
  function PinFrom<V>(e: Env<V>, d: seq<V>, i: nat): (e': Env<V>)
    requires WellFormed(e) && |d| == SIZE && i <= SIZE
    ensures WellFormed(e')
    decreases SIZE - i
  {
    if i == SIZE then e else PinFrom(if e.flags[i] then Pin(e, d, i) else e, d, i + 1)
  }

  function CountFlags(flags: seq<bool>, n: nat): nat
    requires n <= |flags|
  {
    if n == 0 then 0 else CountFlags(flags, n - 1) + if flags[n - 1] then 1 else 0
  }

  // ---------------------------------------------------------------------------------------
  // Against a plain map
  // ---------------------------------------------------------------------------------------

  function BuiltKeys(flags: seq<bool>, n: nat): set<string>
    requires n <= |flags| && n <= SIZE
  {
    if n == 0 then {} else BuiltKeys(flags, n - 1) + if flags[n - 1] then {Name(n - 1)} else {}
  }

  lemma {:induction false} BuiltKey(flags: seq<bool>, n: nat, key: string)
    requires n <= |flags| && n <= SIZE
    ensures key in BuiltKeys(flags, n) <==> Index(key) < n && flags[Index(key)]
  {
    hide Index, Name;
    if n > 0 {
      BuiltKey(flags, n - 1, key);
      IndexOfName(n - 1);
    }
  }

  lemma {:induction false} BuiltKeysCount(flags: seq<bool>, n: nat)
    requires n <= |flags| && n <= SIZE
    ensures |BuiltKeys(flags, n)| == CountFlags(flags, n)
  {
    hide Index, Name;
    if n > 0 {
      var keys := BuiltKeys(flags, n - 1);
      BuiltKeysCount(flags, n - 1);
      assert Name(n - 1) !in keys by {
        BuiltKey(flags, n - 1, Name(n - 1));
        IndexOfName(n - 1);
      }
      OneMore(keys, Name(n - 1));
    }
  }

  lemma OneMore<T>(s: set<T>, x: T)
    requires x !in s
    ensures |s + {x}| == |s| + 1 && s + {} == s
  {
  }

  lemma BuiltKeysAre(flags: seq<bool>, n: nat)
    requires n <= |flags| && n <= SIZE
    ensures forall key :: key in BuiltKeys(flags, n) <==> Index(key) < n && flags[Index(key)]
    ensures |BuiltKeys(flags, n)| == CountFlags(flags, n)
  {
    hide Index, Name, BuiltKeys, CountFlags;
    forall key
      ensures key in BuiltKeys(flags, n) <==> Index(key) < n && flags[Index(key)]
    {
      BuiltKey(flags, n, key);
    }
    BuiltKeysCount(flags, n);
  }

  function Keys<V>(e: Env<V>): set<string>
    requires WellFormed(e)
  {
    BuiltKeys(e.flags, SIZE) + e.extra.Keys
  }

  lemma KeysAre<V>(e: Env<V>, d: seq<V>)
    requires WellFormed(e) && |d| == SIZE
    ensures forall key :: key in Keys(e) <==> Lookup(e, d, key).Some?
    ensures |Keys(e)| == CountFlags(e.flags, SIZE) + |e.extra|
  {
    hide Index, Name, BuiltKeys;
    BuiltKeysAre(e.flags, SIZE);
    forall key
      ensures key in Keys(e) <==> Lookup(e, d, key).Some?
      ensures key in e.extra ==> Index(key) == SIZE
    {
    }
    assert BuiltKeys(e.flags, SIZE) !! e.extra.Keys;
    assert |e.extra.Keys| == |e.extra|;
  }

  /** The plain map that the environment stands for. */
  function Contents<V>(e: Env<V>, d: seq<V>): (m: map<string, V>)
    requires WellFormed(e) && |d| == SIZE
    ensures m.Keys == Keys(e)
    ensures forall key :: (key in m <==> Lookup(e, d, key).Some?) && (key in m ==> Some(m[key]) == Lookup(e, d, key))
  {
    KeysAre(e, d);
    map key | key in Keys(e) :: Lookup(e, d, key).value
  }

  lemma SameContents<V>(e: Env<V>, d: seq<V>, m: map<string, V>)
    requires WellFormed(e) && |d| == SIZE
    requires forall key :: Lookup(e, d, key) == if key in m then Some(m[key]) else None
    ensures Contents(e, d) == m
  {
    hide Lookup, Keys;
    var c := Contents(e, d);
    forall key
      ensures key in c <==> key in m
      ensures key in c ==> c[key] == m[key]
    {
      assert Lookup(e, d, key) == if key in m then Some(m[key]) else None;
    }
  }

  // ---------------------------------------------------------------------------------------
  // Single operations, for any defaults before and after
  // ---------------------------------------------------------------------------------------

  /** Reading answers what the map holds, and fixes a lazy value for good. */
  lemma GetFixes<V>(e: Env<V>, d: seq<V>, key: string, d': seq<V>, other: string)
    requires WellFormed(e) && |d| == |d'| == SIZE
    ensures var (e', r) := Get(e, d, key);
            && r == Lookup(e, d, key)
            && Lookup(e', d', other) == if other == key && r.Some? then r else Lookup(e, d', other)
  {
    hide Name, Index;
    if Index(key) < SIZE && Index(other) == Index(key) {
      assert Name(Index(key)) == key == other;
    }
  }

  lemma PutSets<V>(e: Env<V>, key: string, v: V, d: seq<V>, other: string)
    requires WellFormed(e) && |d| == SIZE
    ensures Lookup(Put(e, key, v), d, other) == if other == key then Some(v) else Lookup(e, d, other)
  {
    hide Name, Index;
    if Index(key) < SIZE && Index(other) == Index(key) {
      assert Name(Index(key)) == key == other;
    }
  }

  lemma DeleteRemoves<V>(e: Env<V>, nil: V, key: string, d: seq<V>, other: string)
    requires WellFormed(e) && |d| == SIZE
    ensures Lookup(Delete(e, nil, key), d, other) == if other == key then None else Lookup(e, d, other)
  {
    hide Name, Index;
    if Index(key) < SIZE && Index(other) == Index(key) {
      assert Name(Index(key)) == key == other;
    }
  }

  lemma {:induction false} ClearEmpties<V>(e: Env<V>, nil: V, i: nat, d: seq<V>, key: string)
    requires WellFormed(e) && |d| == SIZE && i <= SIZE
    ensures Lookup(ClearFrom(e, nil, i), d, key) == if i <= Index(key) then None else Lookup(e, d, key)
    decreases SIZE - i
  {
    hide Name, Index;
    if i < SIZE {
      ClearEmpties(if e.flags[i] then e.(flags := e.flags[i := false], values := e.values[i := nil]) else e,
                   nil, i + 1, d, key);
    }
  }

  /** Enumerating fixes every value that it shows. */
  lemma {:induction false} EnumerationFixes<V>(e: Env<V>, d: seq<V>, i: nat, d': seq<V>, key: string)
    requires WellFormed(e) && |d| == |d'| == SIZE && i <= SIZE
    ensures Lookup(PinFrom(e, d, i), d', key) == Lookup(e, if i <= Index(key) then d else d', key)
    decreases SIZE - i
  {
    hide Name, Index;
    if i < SIZE {
      EnumerationFixes(if e.flags[i] then Pin(e, d, i) else e, d, i + 1, d', key);
    }
  }

  lemma InitialLookup<V>(nil: V, d: seq<V>, key: string)
    requires |d| == SIZE
    ensures Lookup(Initial(nil), d, key) == if Index(key) < SIZE then Some(d[Index(key)]) else None
  {
    hide Name, Index;
  }

  // ---------------------------------------------------------------------------------------
  // Any run
  // ---------------------------------------------------------------------------------------

  datatype Op<V> =
    | DoGet(key: string)
    | DoContains(key: string)
    | DoSet(key: string, v: V)
    | DoAdd(key: string, v: V)
    | DoRemove(key: string)
    | DoClear
    | DoCount
    | DoEnumerate

  datatype Answer<V> = Value(found: Option<V>) | Flag(yes: bool) | Size(n: nat) | Listed(pairs: map<string, V>) | Done

  /** What the environment does; `d` is what the callback and the handler would answer. */
  function Do<V>(e: Env<V>, nil: V, d: seq<V>, op: Op<V>): (r: (Env<V>, Answer<V>))
    requires WellFormed(e) && |d| == SIZE
    ensures WellFormed(r.0)
  {
    match op
    case DoGet(key) => var (e', r) := Get(e, d, key); (e', Value(r))
    case DoContains(key) => (e, Flag(Lookup(e, d, key).Some?))
    case DoSet(key, v) => (Put(e, key, v), Done)
    case DoAdd(key, v) => if key in e.extra then (e, Flag(false)) else (Put(e, key, v), Flag(true))
    case DoRemove(key) => (Delete(e, nil, key), Flag(Lookup(e, d, key).Some?))
    case DoClear => (ClearFrom(e, nil, 0), Done)
    case DoCount => (e, Size(CountFlags(e.flags, SIZE) + |e.extra|))
    case DoEnumerate => (PinFrom(e, d, 0), Listed(Contents(e, d)))
  }

  /** A plain map; only Add differs from the usual dictionary: it replaces the value of a built-in key. */
  function DoPlain<V>(m: map<string, V>, op: Op<V>): (map<string, V>, Answer<V>) {
    match op
    case DoGet(key) => (m, Value(if key in m then Some(m[key]) else None))
    case DoContains(key) => (m, Flag(key in m))
    case DoSet(key, v) => (m[key := v], Done)
    case DoAdd(key, v) => if key in m && Index(key) == SIZE then (m, Flag(false)) else (m[key := v], Flag(true))
    case DoRemove(key) => (m - {key}, Flag(key in m))
    case DoClear => (map[], Done)
    case DoCount => (m, Size(|m|))
    case DoEnumerate => (m, Listed(m))
  }

  lemma WhatRemoveDoes<V>(e: Env<V>, nil: V, key: string, removed: bool)
    requires WellFormed(e)
    requires removed <==> if Index(key) < SIZE then e.flags[Index(key)] else key in e.extra
    ensures forall d: seq<V> :: |d| == SIZE ==> Do(e, nil, d, DoRemove(key)) == (Delete(e, nil, key), Flag(removed))
  {
    hide Index, Delete, Shown;
    forall d: seq<V> | |d| == SIZE
      ensures Do(e, nil, d, DoRemove(key)) == (Delete(e, nil, key), Flag(removed))
    {
      assert Lookup(e, d, key).Some? == removed;
    }
  }

  lemma DoRefines<V>(e: Env<V>, nil: V, d: seq<V>, op: Op<V>)
    requires WellFormed(e) && |d| == SIZE
    ensures var (e', a) := Do(e, nil, d, op);
            (Contents(e', d), a) == DoPlain(Contents(e, d), op)
  {
    hide Name, Index, Contents, Lookup, Get, Put, Delete, ClearFrom, PinFrom, Keys;
    var m := Contents(e, d);
    var (e', a) := Do(e, nil, d, op);
    var (m', a') := DoPlain(m, op);
    forall key
      ensures Lookup(e', d, key) == if key in m' then Some(m'[key]) else None
    {
      match op {
        case DoGet(k) => GetFixes(e, d, k, d, key);
        case DoContains(_) =>
        case DoSet(k, v) => PutSets(e, k, v, d, key);
        case DoAdd(k, v) => PutSets(e, k, v, d, key); AddIsRefused(e, d, k);
        case DoRemove(k) => DeleteRemoves(e, nil, k, d, key);
        case DoClear => ClearEmpties(e, nil, 0, d, key);
        case DoCount =>
        case DoEnumerate => EnumerationFixes(e, d, 0, d, key);
      }
    }
    SameContents(e', d, m');
    match op {
      case DoGet(k) => GetFixes(e, d, k, d, k);
      case DoAdd(k, v) => AddIsRefused(e, d, k);
      case DoCount => KeysAre(e, d); assert |m.Keys| == |m|;
      case _ =>
    }
  }

  lemma AddIsRefused<V>(e: Env<V>, d: seq<V>, key: string)
    requires WellFormed(e) && |d| == SIZE
    ensures key in e.extra <==> key in Contents(e, d) && Index(key) == SIZE
  {
    hide Name, Index, Contents;
  }

  /** A built-in key that is present is replaced by Add, where a dictionary would refuse. */
  lemma AddReplacesBuiltIn<V>(nil: V, d: seq<V>, i: nat, v: V)
    requires |d| == SIZE && i < SIZE
    ensures var (e, a) := Do(Initial(nil), nil, d, DoAdd(Name(i), v));
            && Name(i) in Contents(Initial(nil), d) && a == Flag(true) && Contents(e, d)[Name(i)] == v
  {
    hide Name, Index, Contents;
    IndexOfName(i);
  }

  // ---------------------------------------------------------------------------------------
  // Any run, while the callback and the handler change their answers
  // ---------------------------------------------------------------------------------------

  /** A map in which some keys have no value yet: they take the default of the moment they are read. */
  datatype LazyMap<V> = LazyMap(fixed: map<string, V>, lazy: set<string>)

  function DefaultOf<V>(d: seq<V>, key: string): V
    requires |d| == SIZE && Index(key) < SIZE
  {
    d[Index(key)]
  }

  predicate AllBuiltIn(keys: set<string>) {
    forall key :: key in keys ==> Index(key) < SIZE
  }

  function DoLazily<V>(m: LazyMap<V>, d: seq<V>, op: Op<V>): (r: (LazyMap<V>, Answer<V>))
    requires |d| == SIZE && AllBuiltIn(m.lazy)
    ensures AllBuiltIn(r.0.lazy)
  {
    match op
    case DoGet(key) =>
      if key in m.lazy then
        var v := DefaultOf(d, key);
        (LazyMap(m.fixed[key := v], m.lazy - {key}), Value(Some(v)))
      else (m, Value(if key in m.fixed then Some(m.fixed[key]) else None))
    case DoContains(key) => (m, Flag(key in m.lazy || key in m.fixed))
    case DoSet(key, v) => (LazyMap(m.fixed[key := v], m.lazy - {key}), Done)
    case DoAdd(key, v) =>
      if key in m.fixed && Index(key) == SIZE then (m, Flag(false))
      else (LazyMap(m.fixed[key := v], m.lazy - {key}), Flag(true))
    case DoRemove(key) => (LazyMap(m.fixed - {key}, m.lazy - {key}), Flag(key in m.lazy || key in m.fixed))
    case DoClear => (LazyMap(map[], {}), Done)
    case DoCount => (m, Size(|m.fixed| + |m.lazy|))
    case DoEnumerate =>
      var all := m.fixed + map key | key in m.lazy :: DefaultOf(d, key);
      (LazyMap(all, {}), Listed(all))
  }

  /** The lazy keys are the present ones that have not been read or written. */
  predicate IsLazy<V>(e: Env<V>, key: string)
    requires WellFormed(e)
  {
    Index(key) < SIZE && e.flags[Index(key)] && e.init[Index(key)]
  }

  function FixedValue<V>(e: Env<V>, key: string): Option<V>
    requires WellFormed(e)
  {
    var i := Index(key);
    if i < SIZE then if e.flags[i] && !e.init[i] then Some(e.values[i]) else None
    else if key in e.extra then Some(e.extra[key]) else None
  }

  ghost predicate StandsFor<V>(e: Env<V>, m: LazyMap<V>)
    ensures StandsFor(e, m) ==> WellFormed(e) && AllBuiltIn(m.lazy)
  {
    && WellFormed(e) && AllBuiltIn(m.lazy)
    && (forall key :: key in m.lazy <==> IsLazy(e, key))
    && (forall key :: FixedValue(e, key) == if key in m.fixed then Some(m.fixed[key]) else None)
  }

  /** What a map with lazy entries shows under a key. */
  function LazyLookup<V>(m: LazyMap<V>, d: seq<V>, key: string): Option<V>
    requires |d| == SIZE && AllBuiltIn(m.lazy)
  {
    if key in m.lazy then Some(DefaultOf(d, key)) else if key in m.fixed then Some(m.fixed[key]) else None
  }

  lemma LookupAgrees<V>(e: Env<V>, m: LazyMap<V>, d: seq<V>, key: string)
    requires StandsFor(e, m) && |d| == SIZE
    ensures Lookup(e, d, key) == LazyLookup(m, d, key)
    ensures key in m.lazy ==> key !in m.fixed
  {
    hide Name, Index;
    assert key in m.lazy <==> IsLazy(e, key);
    assert FixedValue(e, key) == if key in m.fixed then Some(m.fixed[key]) else None;
  }

  lemma PutStands<V>(e: Env<V>, m: LazyMap<V>, key: string, v: V)
    requires StandsFor(e, m)
    ensures StandsFor(Put(e, key, v), LazyMap(m.fixed[key := v], m.lazy - {key}))
  {
    hide Name, Index;
    var e' := Put(e, key, v);
    forall other
      ensures IsLazy(e', other) == (other != key && IsLazy(e, other))
      ensures FixedValue(e', other) == if other == key then Some(v) else FixedValue(e, other)
    {
      SameIndex(key, other);
    }
  }

  /** Different built-in keys have different bits. */
  lemma SameIndex(key: string, other: string)
    ensures Index(key) < SIZE && Index(other) == Index(key) ==> other == key
  {
    hide Name, Index;
  }

  lemma PinStands<V>(e: Env<V>, m: LazyMap<V>, d: seq<V>, key: string)
    requires StandsFor(e, m) && |d| == SIZE && key in m.lazy
    ensures StandsFor(Pin(e, d, Index(key)), LazyMap(m.fixed[key := DefaultOf(d, key)], m.lazy - {key}))
  {
    hide Name, Index;
    var e' := Pin(e, d, Index(key));
    forall other
      ensures IsLazy(e', other) == (other != key && IsLazy(e, other))
      ensures FixedValue(e', other) == if other == key then Some(d[Index(key)]) else FixedValue(e, other)
    {
      SameIndex(key, other);
    }
  }

  /** Reading a value that is fixed changes nothing. */
  lemma PinFixed<V>(e: Env<V>, d: seq<V>, i: nat)
    requires WellFormed(e) && |d| == SIZE && i < SIZE && !e.init[i]
    ensures Pin(e, d, i) == e
  {
    hide Name;
    assert e.values[i := e.values[i]] == e.values && e.init[i := false] == e.init;
  }

  lemma GetStands<V>(e: Env<V>, m: LazyMap<V>, nil: V, d: seq<V>, key: string)
    requires StandsFor(e, m) && |d| == SIZE
    ensures var (e', a) := Do(e, nil, d, DoGet(key));
            var (m', a') := DoLazily(m, d, DoGet(key));
            a == a' && StandsFor(e', m')
  {
    hide Name, Index, Pin, StandsFor;
    LookupAgrees(e, m, d, key);
    GetFixes(e, d, key, d, key);
    LazyMeans(e, m, key);
    var i := Index(key);
    if key in m.lazy {
      PinStands(e, m, d, key);
    } else if i < SIZE && e.flags[i] {
      PinFixed(e, d, i);
    }
  }

  lemma LazyMeans<V>(e: Env<V>, m: LazyMap<V>, key: string)
    requires StandsFor(e, m)
    ensures WellFormed(e) && AllBuiltIn(m.lazy) && (key in m.lazy <==> IsLazy(e, key))
    ensures FixedValue(e, key) == if key in m.fixed then Some(m.fixed[key]) else None
  {
    hide Name, Index, IsLazy, FixedValue;
  }

  lemma DeleteStands<V>(e: Env<V>, m: LazyMap<V>, nil: V, key: string)
    requires StandsFor(e, m)
    ensures StandsFor(Delete(e, nil, key), LazyMap(m.fixed - {key}, m.lazy - {key}))
  {
    hide Name, Index;
    var e' := Delete(e, nil, key);
    forall other
      ensures IsLazy(e', other) == (other != key && IsLazy(e, other))
      ensures FixedValue(e', other) == if other == key then None else FixedValue(e, other)
    {
      SameIndex(key, other);
    }
  }

  lemma {:induction false} ClearStands<V>(e: Env<V>, nil: V, i: nat, key: string)
    requires WellFormed(e) && i <= SIZE
    ensures var e' := ClearFrom(e, nil, i);
            && (IsLazy(e', key) <==> Index(key) < i && IsLazy(e, key))
            && FixedValue(e', key) == if Index(key) < i then FixedValue(e, key) else None
    decreases SIZE - i
  {
    hide Name, Index;
    if i < SIZE {
      ClearStands(if e.flags[i] then e.(flags := e.flags[i := false], values := e.values[i := nil]) else e,
                  nil, i + 1, key);
    }
  }

  lemma {:induction false} PinFromStands<V>(e: Env<V>, d: seq<V>, i: nat, key: string)
    requires WellFormed(e) && |d| == SIZE && i <= SIZE
    ensures var e' := PinFrom(e, d, i);
            && (IsLazy(e', key) <==> Index(key) < i && IsLazy(e, key))
            && FixedValue(e', key) ==
               if i <= Index(key) && IsLazy(e, key) then Some(d[Index(key)]) else FixedValue(e, key)
    decreases SIZE - i
  {
    hide Name, Index;
    if i < SIZE {
      PinFromStands(if e.flags[i] then Pin(e, d, i) else e, d, i + 1, key);
    }
  }

  lemma CountAgrees<V>(e: Env<V>, m: LazyMap<V>, d: seq<V>)
    requires StandsFor(e, m) && |d| == SIZE
    ensures CountFlags(e.flags, SIZE) + |e.extra| == |m.fixed| + |m.lazy|
  {
    hide Name, Index, Lookup, Keys, LazyLookup, StandsFor;
    KeysAre(e, d);
    forall key
      ensures key in Keys(e) <==> key in m.fixed || key in m.lazy
      ensures !(key in m.fixed && key in m.lazy)
    {
      LookupAgrees(e, m, d, key);
      LazyShows(m, d, key);
    }
    DisjointCount(Keys(e), m.fixed, m.lazy);
  }

  lemma DisjointCount<V>(keys: set<string>, fixed: map<string, V>, lazy: set<string>)
    requires forall key :: key in keys <==> key in fixed || key in lazy
    requires forall key :: !(key in fixed && key in lazy)
    ensures |keys| == |fixed| + |lazy|
  {
    assert keys == fixed.Keys + lazy && fixed.Keys !! lazy;
    assert |fixed.Keys| == |fixed|;
  }

  lemma LazyShows<V>(m: LazyMap<V>, d: seq<V>, key: string)
    requires |d| == SIZE && AllBuiltIn(m.lazy)
    ensures LazyLookup(m, d, key).Some? <==> key in m.fixed || key in m.lazy
  {
  }

  lemma EnumerationStands<V>(e: Env<V>, m: LazyMap<V>, nil: V, d: seq<V>)
    requires StandsFor(e, m) && |d| == SIZE
    ensures var (e', a) := Do(e, nil, d, DoEnumerate);
            var (m', a') := DoLazily(m, d, DoEnumerate);
            a == a' && StandsFor(e', m')
  {
    hide Name, Index, Contents, IsLazy, FixedValue, Lookup, LazyLookup, PinFrom, StandsFor;
    var e', all := PinFrom(e, d, 0), DoLazily(m, d, DoEnumerate).0.fixed;
    forall key
      ensures Lookup(e, d, key) == if key in all then Some(all[key]) else None
      ensures !IsLazy(e', key)
      ensures FixedValue(e', key) == if key in all then Some(all[key]) else None
    {
      LookupAgrees(e, m, d, key);
      AllShows(m, d, key);
      PinFromStands(e, d, 0, key);
      FixedIsShown(e, d, key);
    }
    SameContents(e, d, all);
    NothingLazy(e', all);
  }

  lemma AllShows<V>(m: LazyMap<V>, d: seq<V>, key: string)
    requires |d| == SIZE && AllBuiltIn(m.lazy) && (key in m.lazy ==> key !in m.fixed)
    ensures var all := DoLazily(m, d, DoEnumerate).0.fixed;
            LazyLookup(m, d, key) == if key in all then Some(all[key]) else None
  {
    hide Index, Name;
  }

  lemma FixedIsShown<V>(e: Env<V>, d: seq<V>, key: string)
    requires WellFormed(e) && |d| == SIZE
    ensures Lookup(e, d, key) == if IsLazy(e, key) then Some(d[Index(key)]) else FixedValue(e, key)
  {
    hide Index, Name;
  }

  lemma NothingLazy<V>(e: Env<V>, all: map<string, V>)
    requires WellFormed(e) && forall key :: !IsLazy(e, key)
    requires forall key :: FixedValue(e, key) == if key in all then Some(all[key]) else None
    ensures StandsFor(e, LazyMap(all, {}))
  {
    hide Index, Name, IsLazy, FixedValue;
  }

  /** Every operation answers like the map with lazy entries, with the defaults of the moment. */
  lemma DoRefinesLazily<V>(e: Env<V>, m: LazyMap<V>, nil: V, d: seq<V>, op: Op<V>)
    requires StandsFor(e, m) && |d| == SIZE
    ensures var (e', a) := Do(e, nil, d, op);
            var (m', a') := DoLazily(m, d, op);
            a == a' && StandsFor(e', m')
  {
    hide Name, Index, Lookup, Get, Put, Delete, ClearFrom, PinFrom, Contents;
    match op
    case DoGet(key) => GetStands(e, m, nil, d, key);
    case DoContains(key) => LookupAgrees(e, m, d, key);
    case DoSet(key, v) => PutStands(e, m, key, v);
    case DoAdd(key, v) =>
      LazyMeans(e, m, key);
      ExtraIsOther(e, key);
      PutStands(e, m, key, v);
    case DoRemove(key) =>
      LookupAgrees(e, m, d, key);
      DeleteStands(e, m, nil, key);
    case DoClear =>
      forall key
        ensures !IsLazy(ClearFrom(e, nil, 0), key) && FixedValue(ClearFrom(e, nil, 0), key) == None
      {
        ClearStands(e, nil, 0, key);
      }
    case DoCount => CountAgrees(e, m, d);
    case DoEnumerate => EnumerationStands(e, m, nil, d);
  }

  lemma ExtraIsOther<V>(e: Env<V>, key: string)
    requires WellFormed(e)
    ensures key in e.extra ==> Index(key) == SIZE
  {
    hide Index, Name;
  }

  lemma InitialStands<V>(nil: V)
    ensures StandsFor(Initial(nil), LazyMap(map[], set i: nat | i < SIZE :: Name(i)))
  {
    hide Index, Name;
    forall i: nat | i < SIZE
      ensures Index(Name(i)) == i
    {
      IndexOfName(i);
    }
  }

  /** One step of a run: an operation, and the defaults at that moment. */
  datatype Turn<V> = Turn(op: Op<V>, d: seq<V>)

  predicate Complete<V>(turns: seq<Turn<V>>) {
    forall i :: 0 <= i < |turns| ==> |turns[i].d| == SIZE
  }

  function RunAll<V>(e: Env<V>, nil: V, turns: seq<Turn<V>>): (r: (Env<V>, seq<Answer<V>>))
    requires WellFormed(e) && Complete(turns)
    ensures WellFormed(r.0)
    decreases |turns|
  {
    if turns == [] then (e, [])
    else
      var (e', a) := Do(e, nil, turns[0].d, turns[0].op);
      var (e'', rest) := RunAll(e', nil, turns[1..]);
      (e'', [a] + rest)
  }

  function RunLazily<V>(m: LazyMap<V>, turns: seq<Turn<V>>): (LazyMap<V>, seq<Answer<V>>)
    requires AllBuiltIn(m.lazy) && Complete(turns)
    decreases |turns|
  {
    if turns == [] then (m, [])
    else
      var (m', a) := DoLazily(m, turns[0].d, turns[0].op);
      var (m'', rest) := RunLazily(m', turns[1..]);
      (m'', [a] + rest)
  }

  /**
   * Every run answers like a map whose 24 built-in entries take their value at the first read,
   * however the callback and the handler change their answers meanwhile.
   */
  lemma {:induction false} EveryRunIsALazyMap<V>(e: Env<V>, m: LazyMap<V>, nil: V, turns: seq<Turn<V>>)
    requires StandsFor(e, m) && Complete(turns)
    ensures var (e', answers) := RunAll(e, nil, turns);
            var (m', answers') := RunLazily(m, turns);
            answers == answers' && StandsFor(e', m')
    decreases |turns|
  {
    hide Do, DoLazily, WellFormed, IsLazy, FixedValue, AllBuiltIn;
    if turns != [] {
      DoRefinesLazily(e, m, nil, turns[0].d, turns[0].op);
      var op, d := turns[0].op, turns[0].d;
      EveryRunIsALazyMap(Do(e, nil, d, op).0, DoLazily(m, d, op).0, nil, turns[1..]);
    }
  }

  // ---------------------------------------------------------------------------------------
  // In place
  // ---------------------------------------------------------------------------------------

  /** The bits whose setter also tells the callback or the handler: status code, reason phrase, headers. */
  predicate Forwarded(i: nat) {
    10 <= i <= 12
  }

  /** Their keys. */
  const RESPONSE_KEYS: set<string> := {"owin.ResponseStatusCode", "owin.ResponseReasonPhrase", "owin.ResponseHeaders"}

  /** A value that is set reaches the server exactly under one of these keys. */
  lemma ForwardedKeys(key: string)
    ensures Forwarded(Index(key)) <==> key in RESPONSE_KEYS
  {
    hide Index;
    IndexOfName(10);
    IndexOfName(11);
    IndexOfName(12);
    assert Name(10) == "owin.ResponseStatusCode" && Name(11) == "owin.ResponseReasonPhrase";
    assert Name(12) == "owin.ResponseHeaders";
  }

  function KeysOf<V>(pairs: seq<(string, V)>): set<string>
    decreases |pairs|
  {
    if pairs == [] then {} else KeysOf(pairs[..|pairs| - 1]) + {pairs[|pairs| - 1].0}
  }

  lemma KeysOfMore<V>(pairs: seq<(string, V)>, p: (string, V))
    ensures KeysOf(pairs + [p]) == KeysOf(pairs) + {p.0}
  {
    assert (pairs + [p])[..|pairs|] == pairs;
  }

  class OwinEnvironment<V(==)> {
    const nil: V
    var flag0: seq<bool>
    var initFlag0: seq<bool>
    var fields: seq<V>
    var extra: map<string, V>
    var extraCreated: bool            // _extra is no longer the shared NilDictionary
    ghost var forwarded: seq<(string, V)>  // what the setters have told the callback and the handler

    ghost function Value(): Env<V>
      reads this
    {
      Env(flag0, initFlag0, fields, extra)
    }

    ghost predicate Valid()
      reads this
    {
      WellFormed(Value()) && (!extraCreated ==> extra == map[])
    }

    constructor (nil: V)
      ensures this.nil == nil && Valid() && Value() == Initial(nil) && forwarded == []
    {
      this.nil := nil;
      flag0, initFlag0, fields := seq(SIZE, i => true), seq(SIZE, i => true), seq(SIZE, i => nil);
      extra, extraCreated, forwarded := map[], false, [];
    }

    method Reset()
      modifies this
      ensures Valid() && Value() == Initial(nil)
    {
      extra, extraCreated := map[], false;
      flag0, initFlag0, fields := seq(SIZE, i => true), seq(SIZE, i => true), seq(SIZE, i => nil);
    }

    /** The getter of property i. */
    method Read(i: nat, d: seq<V>) returns (v: V)
      requires Valid() && |d| == SIZE && i < SIZE
      modifies this`fields, this`initFlag0
      ensures Valid() && Value() == Pin(old(Value()), d, i) && v == Shown(old(Value()), d, i)
    {
      if initFlag0[i] {
        fields := fields[i := d[i]];
        initFlag0 := initFlag0[i := false];
      }
      assert fields == fields[i := fields[i]] && initFlag0 == initFlag0[i := false];
      v := fields[i];
    }

    method ContainsKey(key: string) returns (yes: bool)
      requires Valid()
      ensures forall d :: |d| == SIZE ==> Flag(yes) == Do(Value(), nil, d, DoContains(key)).1
    {
      hide Name, Index;
      var i := FindKey(key);
      yes := (i < SIZE && flag0[i]) || key in extra;
      assert i < SIZE ==> key !in extra;
      forall d: seq<V> | |d| == SIZE
        ensures Flag(yes) == Do(Value(), nil, d, DoContains(key)).1
      {
        assert yes == Lookup(Value(), d, key).Some?;
      }
    }

    method TryGetValue(key: string, d: seq<V>) returns (r: Option<V>)
      requires Valid() && |d| == SIZE
      modifies this`fields, this`initFlag0
      ensures Valid() && (Value(), Answer.Value(r)) == Do(old(Value()), nil, d, DoGet(key))
    {
      hide Name, Index;
      var i := FindKey(key);
      if i < SIZE && flag0[i] {
        var v := Read(i, d);
        return Some(v);
      }
      r := if key in extra then Some(extra[key]) else None;
    }

    method PropertiesTrySetValue(key: string, v: V) returns (done: bool)
      requires Valid()
      modifies this`flag0, this`initFlag0, this`fields, this`forwarded
      ensures Valid() && done == (Index(key) < SIZE)
      ensures Value() == if done then Put(old(Value()), key, v) else old(Value())
      ensures forwarded == old(forwarded) + if key in RESPONSE_KEYS then [(key, v)] else []
    {
      hide Name, Index;
      ForwardedKeys(key);
      var i := FindKey(key);
      if i == SIZE {
        return false;
      }
      initFlag0 := initFlag0[i := false];
      flag0 := flag0[i := true];
      fields := fields[i := v];
      if Forwarded(i) {
        forwarded := forwarded + [(key, v)];
      }
      return true;
    }

    /** The indexer. */
    method SetItem(key: string, v: V)
      requires Valid()
      modifies this
      ensures Valid() && Value() == Put(old(Value()), key, v)
    {
      hide Name, Index;
      var done := PropertiesTrySetValue(key, v);
      if !done {
        extraCreated := true;
        extra := extra[key := v];
      }
    }

    /** false where Dictionary.Add throws */
    method Add(key: string, v: V) returns (added: bool)
      requires Valid()
      modifies this
      ensures Valid()
      ensures forall d :: |d| == SIZE ==> (Value(), Flag(added)) == Do(old(Value()), nil, d, DoAdd(key, v))
    {
      hide Name, Index;
      added := PropertiesTrySetValue(key, v);
      if added {
        assert key !in extra;
        return;
      }
      extraCreated := true;
      if key in extra {
        return false;
      }
      extra := extra[key := v];
      return true;
    }

    method PropertiesTryRemove(i: nat) returns (removed: bool)
      requires Valid() && i <= SIZE
      modifies this`flag0, this`fields
      ensures Valid() && removed == (i < SIZE && old(flag0)[i])
      ensures Value() == if removed then old(Value()).(flags := old(flag0)[i := false], values := old(fields)[i := nil])
                         else old(Value())
    {
      if i < SIZE && flag0[i] {
        flag0 := flag0[i := false];
        fields := fields[i := nil];
        return true;
      }
      return false;
    }

    method Remove(key: string) returns (removed: bool)
      requires Valid()
      modifies this
      ensures Valid()
      ensures forall d :: |d| == SIZE ==> (Value(), Flag(removed)) == Do(old(Value()), nil, d, DoRemove(key))
    {
      hide Name, Index, Shown, Do;
      ghost var e := Value();
      var i := FindKey(key);
      removed := PropertiesTryRemove(i);
      if !removed {
        removed := key in extra;
        extra := extra - {key};
      }
      WhatRemoveDoes(e, nil, key, removed);
    }

    method Clear()
      requires Valid()
      modifies this
      ensures Valid() && Value() == ClearFrom(old(Value()), nil, 0)
    {
      hide Name;
      for i := 0 to SIZE
        invariant Valid() && ClearFrom(Value(), nil, i) == ClearFrom(old(Value()), nil, 0)
      {
        if flag0[i] {
          var _ := PropertiesTryRemove(i);
        }
      }
      extra := map[];
    }

    method Count() returns (n: nat)
      requires Valid()
      ensures forall d :: |d| == SIZE ==> n == |Contents(Value(), d)|
    {
      hide Name, Index, Contents;
      n := 0;
      for i := 0 to SIZE
        invariant n == CountFlags(flag0, i)
      {
        if flag0[i] {
          n := n + 1;
        }
      }
      n := n + |extra|;
      forall d: seq<V> | |d| == SIZE
        ensures n == |Contents(Value(), d)|
      {
        KeysAre(Value(), d);
        assert |Contents(Value(), d).Keys| == |Contents(Value(), d)|;
      }
    }

    /** `pairs` lists `keys`, each once, with the values of `m`. */
    ghost static predicate Lists(pairs: seq<(string, V)>, keys: set<string>, m: map<string, V>) {
      && |pairs| == |keys| && KeysOf(pairs) == keys
      && forall p :: 0 <= p < |pairs| ==> pairs[p].0 in m && pairs[p].1 == m[pairs[p].0]
    }

    static lemma ListsMore(pairs: seq<(string, V)>, keys: set<string>, m: map<string, V>, key: string)
      requires Lists(pairs, keys, m) && key !in keys && key in m
      ensures Lists(pairs + [(key, m[key])], keys + {key}, m)
    {
      KeysOfMore(pairs, (key, m[key]));
    }

    /** PropertiesEnumerable */
    method EnumerateProperties(d: seq<V>) returns (pairs: seq<(string, V)>)
      requires Valid() && |d| == SIZE
      modifies this`fields, this`initFlag0
      ensures Valid() && Value() == PinFrom(old(Value()), d, 0)
      ensures Lists(pairs, BuiltKeys(flag0, SIZE), old(Contents(Value(), d)))
    {
      hide Name, Index, Contents, Keys, Lists, Lookup, PinFrom, BuiltKeys;
      ghost var e := Value();
      ghost var m := Contents(e, d);
      pairs := [];
      assert Lists(pairs, BuiltKeys(flag0, 0), m) by { NoKeys(flag0, m); }
      for i := 0 to SIZE
        invariant Valid() && PinFrom(Value(), d, i) == PinFrom(e, d, 0) && flag0 == e.flags
        invariant forall j :: i <= j < SIZE ==> Shown(Value(), d, j) == Shown(e, d, j)
        invariant Lists(pairs, BuiltKeys(flag0, i), m)
      {
        NameIsNew(flag0, i);
        PinsNext(Value(), d, i);
        if flag0[i] {
          var v := Read(i, d);
          ShownIsHeld(e, d, i);
          ListsMore(pairs, BuiltKeys(flag0, i), m, Name(i));
          pairs := pairs + [(Name(i), v)];
        }
      }
      PinsNext(Value(), d, SIZE);
    }

    /** GetEnumerator: each key once, with the value that the map holds. */
    method Enumerate(d: seq<V>) returns (pairs: seq<(string, V)>)
      requires Valid() && |d| == SIZE
      modifies this`fields, this`initFlag0
      ensures Valid() && Value() == PinFrom(old(Value()), d, 0)
      ensures Lists(pairs, old(Contents(Value(), d)).Keys, old(Contents(Value(), d)))
    {
      hide Name, Index, Contents, Keys, Lists, Lookup, BuiltKeys;
      ghost var e := Value();
      ghost var m := Contents(e, d);
      pairs := EnumerateProperties(d);
      KeysAreBoth(e, d);
      ghost var keys := BuiltKeys(e.flags, SIZE);
      assert flag0 == e.flags && extra == e.extra by { PinKeeps(e, d, 0); }
      var rest := extra.Keys;
      while rest != {}
        invariant rest <= extra.Keys && keys + rest == m.Keys && keys !! rest && Lists(pairs, keys, m)
        decreases |rest|
        modifies {}
      {
        var key :| key in rest;
        ExtraIsHeld(e, d, key);
        ListsMore(pairs, keys, m, key);
        pairs := pairs + [(key, extra[key])];
        keys := keys + {key};
        rest := rest - {key};
      }
      assert keys == m.Keys;
    }
  }

  lemma {:induction false} PinKeeps<V>(e: Env<V>, d: seq<V>, i: nat)
    requires WellFormed(e) && |d| == SIZE && i <= SIZE
    ensures PinFrom(e, d, i).flags == e.flags && PinFrom(e, d, i).extra == e.extra
    decreases SIZE - i
  {
    hide Name;
    if i < SIZE {
      PinKeeps(if e.flags[i] then Pin(e, d, i) else e, d, i + 1);
    }
  }

  lemma PinsNext<V>(e: Env<V>, d: seq<V>, i: nat)
    requires WellFormed(e) && |d| == SIZE && i <= SIZE
    ensures PinFrom(e, d, i) == if i == SIZE then e else PinFrom(if e.flags[i] then Pin(e, d, i) else e, d, i + 1)
  {
  }

  lemma NoKeys<V>(flags: seq<bool>, m: map<string, V>)
    ensures OwinEnvironment.Lists([], BuiltKeys(flags, 0), m)
  {
  }

  lemma NameIsNew(flags: seq<bool>, i: nat)
    requires i < SIZE && |flags| == SIZE
    ensures Name(i) !in BuiltKeys(flags, i)
    ensures BuiltKeys(flags, i + 1) == if flags[i] then BuiltKeys(flags, i) + {Name(i)} else BuiltKeys(flags, i)
  {
    hide Name, Index;
    BuiltKeysAre(flags, i);
    IndexOfName(i);
  }

  lemma KeysAreBoth<V>(e: Env<V>, d: seq<V>)
    requires WellFormed(e) && |d| == SIZE
    ensures Contents(e, d).Keys == BuiltKeys(e.flags, SIZE) + e.extra.Keys
    ensures BuiltKeys(e.flags, SIZE) !! e.extra.Keys
  {
    hide Name, Index, BuiltKeys;
    BuiltKeysAre(e.flags, SIZE);
  }

  lemma ShownIsHeld<V>(e: Env<V>, d: seq<V>, i: nat)
    requires WellFormed(e) && |d| == SIZE && i < SIZE && e.flags[i]
    ensures Name(i) in Contents(e, d) && Contents(e, d)[Name(i)] == Shown(e, d, i)
  {
    hide Name, Index, Contents;
    IndexOfName(i);
  }

  lemma ExtraIsHeld<V>(e: Env<V>, d: seq<V>, key: string)
    requires WellFormed(e) && |d| == SIZE && key in e.extra
    ensures key in Contents(e, d) && Contents(e, d)[key] == e.extra[key]
  {
    hide Name, Index, Contents;
  }
}
