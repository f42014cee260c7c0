/** From jsonb to Lua and back. */
module JsonbRoundTrip {
  import opened Options
  import opened JsonbValues
  import opened JsonbToSql
  import opened JsonbMap

  /** The most elements a jsonb array can have (JB_CMASK). */
  const MAX_ELEMENTS := 0x0fff_ffff

  ghost predicate Fits(j: Json) {
    match j
    case JArr(elems) => |elems| <= MAX_ELEMENTS && forall i | 0 <= i < |elems| :: Fits(elems[i])
    case JObj(members) => forall s | s in members :: Fits(members[s])
    case _ => true
  }

  /** Both ways are told the same null value, either a unique one or none; numbers stay numeric. */
  ghost predicate Matching(c: MapConfig, cfg: Config) {
    && c.keepNumeric
    && (forall s | c.tointeger(s).Some? :: c.tointeger(s).value <= LUA_MAXINTEGER)
    && ((c.nullValue.LUnique? && cfg.nullValue == Some(c.nullValue)) || (c.nullValue.LNil? && cfg.nullValue.None?))
  }

  /** How many elements are left when the nulls at the end are cut off. */
  function Kept(elems: seq<Json>): (n: nat)
    ensures n <= |elems| && (n > 0 ==> !elems[n - 1].JNull?)
    ensures forall i | n <= i < |elems| :: elems[i].JNull?
  {
    if elems == [] then 0
    else if elems[|elems| - 1].JNull? then Kept(elems[..|elems| - 1])
    else |elems|
  }

  /** At every depth, arrays without the nulls at their end and objects without null members. */
  function Trim(j: Json): Json
    decreases j
  {
    match j
    case JArr(elems) => JArr(seq(Kept(elems), i requires 0 <= i < Kept(elems) => Trim(elems[i])))
    case JObj(members) => JObj(map s | s in members && !members[s].JNull? :: Trim(members[s]))
    case _ => j
  }

  function Back(j: Json, c: MapConfig): Json {
    if c.nullValue.LNil? then Trim(j) else j
  }

  /** What a document is mapped to can be serialised again, and comes back. */
  ghost predicate Returns(j: Json, c: MapConfig, cfg: Config) {
    WellFormed(Lift(j, c), cfg) && Serialisable(Lift(j, c), cfg) && ToJson(Lift(j, c), cfg) == Back(j, c)
  }

  lemma {:induction false} LiftBack(j: Json, c: MapConfig, cfg: Config)
    requires Fits(j) && Matching(c, cfg)
    ensures Returns(j, c, cfg)
    decreases j
  {
    match j {
      case JArr(elems) =>
        forall i | 0 <= i < |elems| ensures Returns(elems[i], c, cfg) { LiftBack(elems[i], c, cfg); }
        ArrayBack(elems, c, cfg);
      case JObj(members) =>
        forall s | s in members ensures Returns(members[s], c, cfg) { LiftBack(members[s], c, cfg); }
        ObjectBack(j, c, cfg);
      case _ =>
    }
  }

  lemma LiftIsNil(j: Json, c: MapConfig, cfg: Config)
    requires Matching(c, cfg)
    ensures Lift(j, c).LNil? <==> j.JNull? && c.nullValue.LNil?
  {}

  lemma TopIs(t: Lua, n: nat)
    requires t.LTable? && Reaches(t, t.entries.Keys, n)
    ensures Top(t) == n
  {
    var m := Top(t);
    assert m > 0 ==> KInt(m) in t.entries.Keys;
    assert n > 0 ==> KInt(n) in t.entries.Keys;
  }

  lemma ArrayShape(elems: seq<Json>, c: MapConfig, cfg: Config)
    requires |elems| <= MAX_ELEMENTS && Matching(c, cfg) && forall i | 0 <= i < |elems| :: Returns(elems[i], c, cfg)
    ensures var v := Lift(JArr(elems), c);
            && WellFormed(v, cfg) && Serialisable(v, cfg) && !IsObject(v, cfg)
            && Top(v) == if c.nullValue.LNil? then Kept(elems) else |elems|
  {
    var v, n := Lift(JArr(elems), c), if c.nullValue.LNil? then Kept(elems) else |elems|;
    if n > 0 { LiftIsNil(elems[n - 1], c, cfg); }
    forall i | KInt(i) in v.entries ensures i <= n { LiftIsNil(elems[i - 1], c, cfg); }
    TopIs(v, n);
    forall k | k in v.entries ensures WellFormed(v.entries[k], cfg) && Serialisable(v.entries[k], cfg) {
      assert Returns(elems[k.i - 1], c, cfg);
    }
  }

  /** What an array table stands for, element by element. */
  lemma ArrayIs(v: Lua, want: seq<Json>, cfg: Config)
    requires v.LTable? && WellFormed(v, cfg) && !IsObject(v, cfg) && |want| == Top(v)
    requires forall i | 0 <= i < |want| :: want[i] == ElemAt(v, i + 1, cfg)
    ensures ToJson(v, cfg) == JArr(want)
  {
    assert ToJson(v, cfg).elems == want;
  }

  lemma ElemBack(elems: seq<Json>, i: nat, c: MapConfig, cfg: Config)
    requires i < |elems| && Returns(elems[i], c, cfg) && Matching(c, cfg) && WellFormed(Lift(JArr(elems), c), cfg)
    ensures ElemAt(Lift(JArr(elems), c), i + 1, cfg) == Back(elems[i], c)
  {
    LiftIsNil(elems[i], c, cfg);
  }

  lemma ArrayBack(elems: seq<Json>, c: MapConfig, cfg: Config)
    requires |elems| <= MAX_ELEMENTS && Matching(c, cfg) && forall i | 0 <= i < |elems| :: Returns(elems[i], c, cfg)
    ensures Returns(JArr(elems), c, cfg)
  {
    ArrayShape(elems, c, cfg);
    var v, want := Lift(JArr(elems), c), Back(JArr(elems), c).elems;
    forall i | 0 <= i < |want| ensures want[i] == ElemAt(v, i + 1, cfg) {
      ElemBack(elems, i, c, cfg);
    }
    ArrayIs(v, want, cfg);
  }

  /** What an object table stands for, member by member. */
  lemma ObjectIs(v: Lua, want: map<string, Json>, cfg: Config)
    requires v.LTable? && WellFormed(v, cfg) && IsObject(v, cfg)
    requires forall s | s in want :: HasMember(v, s, want[s], cfg)
    requires forall k | k in v.entries :: TextOf(k) in want
    ensures ToJson(v, cfg) == JObj(want)
  {
    var got := ToJson(v, cfg).members;
    forall s ensures (s in got <==> s in want) && (s in got ==> got[s] == want[s]) {
      if s in want { assert HasMember(v, s, want[s], cfg); }
    }
    assert got == want;
  }

  ghost predicate HasMember(v: Lua, s: string, j: Json, cfg: Config)
    requires v.LTable? && WellFormed(v, cfg)
  {
    exists k :: k in v.entries && TextOf(k) == s && ToJson(v.entries[k], cfg) == j
  }

  lemma ObjectBack(j: Json, c: MapConfig, cfg: Config)
    requires j.JObj? && Matching(c, cfg) && forall s | s in j.members :: Returns(j.members[s], c, cfg)
    ensures Returns(j, c, cfg)
  {
    ObjectShape(j, c, cfg);
    var v, want := Lift(j, c), Back(j, c).members;
    forall s | s in j.members ensures s in want <==> ToKey(s, c) in v.entries { LiftIsNil(j.members[s], c, cfg); }
    forall s | s in want ensures HasMember(v, s, want[s], cfg) {
      assert Returns(j.members[s], c, cfg) && v.entries[ToKey(s, c)] == Lift(j.members[s], c);
    }
    ObjectIs(v, want, cfg);
  }

  lemma ObjectShape(j: Json, c: MapConfig, cfg: Config)
    requires j.JObj? && Matching(c, cfg) && forall s | s in j.members :: Returns(j.members[s], c, cfg)
    ensures WellFormed(Lift(j, c), cfg) && Serialisable(Lift(j, c), cfg) && IsObject(Lift(j, c), cfg)
  {
    var v := Lift(j, c);
    forall k | k in v.entries ensures WellFormed(v.entries[k], cfg) && Serialisable(v.entries[k], cfg) {
      assert Returns(j.members[TextOf(k)], c, cfg);
    }
  }

  /** With a unique null value and numbers kept numeric, a document survives the round trip unchanged
      unless it is an empty container of the kind that a plain empty table is not taken for. */
  lemma RoundTrip(j: Json, c: MapConfig, cfg: Config)
    requires Fits(j) && Matching(c, cfg) && c.nullValue.LUnique?
    ensures WellFormed(LiftRoot(j, c), cfg) && Serialisable(LiftRoot(j, c), cfg)
    ensures ToJson(LiftRoot(j, c), cfg) == j <==> j != if cfg.emptyObject then JArr([]) else JObj(map[])
  {
    RootBack(j, c, cfg);
  }

  /** With no null value, what comes back is the document without the nulls at the end of its arrays
      and without the null members of its objects. */
  lemma RoundTripWithoutNull(j: Json, c: MapConfig, cfg: Config)
    requires Fits(j) && Matching(c, cfg) && c.nullValue.LNil?
    ensures WellFormed(LiftRoot(j, c), cfg) && Serialisable(LiftRoot(j, c), cfg)
    ensures !EmptyRoot(j) ==> ToJson(LiftRoot(j, c), cfg) == Trim(j)
    ensures ToJson(LiftRoot(j, c), cfg) == j <==>
            Trim(j) == j && j != if cfg.emptyObject then JArr([]) else JObj(map[])
  {
    RootBack(j, c, cfg);
    assert EmptyRoot(j) ==> Trim(j) == j;
  }

  lemma RootBack(j: Json, c: MapConfig, cfg: Config)
    requires Fits(j) && Matching(c, cfg)
    ensures WellFormed(LiftRoot(j, c), cfg) && Serialisable(LiftRoot(j, c), cfg)
    ensures ToJson(LiftRoot(j, c), cfg) ==
            if EmptyRoot(j) then if cfg.emptyObject then JObj(map[]) else JArr([]) else Back(j, c)
  {
    if EmptyRoot(j) {
      var v := LTable(Untagged, map[]);
      assert IsObject(v, cfg) <==> cfg.emptyObject;
      assert WellFormed(v, cfg);
      if !cfg.emptyObject { assert Top(v) == 0; assert ToJson(v, cfg).elems == []; }
      else { assert ToJson(v, cfg).members == map[]; }
    } else {
      LiftBack(j, c, cfg);
    }
  }

  /** Mapping a document to Lua and serialising the result. */
  method ThereAndBack(j: Json, toks: seq<Token>, c: MapConfig, cfg: Config) returns (r: Result<Json, string>)
    requires Fits(j) && Yields(j, toks) && Matching(c, cfg)
    ensures !EmptyRoot(j) && c.nullValue.LUnique? ==> r == Ok(j)
    ensures !EmptyRoot(j) && c.nullValue.LNil? ==> r == Ok(Trim(j))
    ensures EmptyRoot(j) ==> r == Ok(if cfg.emptyObject then JObj(map[]) else JArr([]))
  {
    var v := Map(j, toks, c);
    RootBack(j, c, cfg);
    r := ToSql(v, cfg);
  }

  // ---- From Lua to jsonb and back ----

  /** Both ways are told the same null value, either a unique one or none; numbers become Lua numbers. */
  ghost predicate Converting(c: MapConfig, cfg: Config) {
    && !c.keepNumeric && (forall n :: c.tonumber(n) == LNum(n))
    && (forall s | c.tointeger(s).Some? :: c.tointeger(s).value <= LUA_MAXINTEGER)
    && ((c.nullValue.LUnique? && cfg.nullValue == Some(c.nullValue)) || (c.nullValue.LNil? && cfg.nullValue.None?))
  }

  /** Booleans, numbers, strings, the null value, and tagged tables of such values: objects with string keys,
      and arrays, which may have gaps if nothing stands for null. */
  ghost predicate Portable(v: Lua, c: MapConfig) {
    match v
    case LBool(_) => true
    case LNum(_) => true
    case LStr(_) => true
    case LUnique(_) => v == c.nullValue
    case LTable(ArrayTag, m) =>
      && (forall k | k in m :: k.KInt? && 1 <= k.i <= INT_MAX && Portable(m[k], c))
      && (c.nullValue.LUnique? ==> forall i, k | KInt(k) in m && 1 <= i <= k :: KInt(i) in m)
    case LTable(ObjectTag, m) => forall k | k in m :: k == ToKey(TextOf(k), c) && Portable(m[k], c)
    case _ => false
  }

  /** Such a value can be serialised, and what it becomes is mapped to the value itself. */
  ghost predicate ComesBack(v: Lua, c: MapConfig, cfg: Config) {
    WellFormed(v, cfg) && Serialisable(v, cfg) && Lift(ToJson(v, cfg), c) == v
  }

  lemma {:induction false} PortableComesBack(v: Lua, c: MapConfig, cfg: Config)
    requires Portable(v, c) && Converting(c, cfg)
    ensures ComesBack(v, c, cfg)
    decreases v
  {
    if v.LTable? {
      forall k | k in v.entries ensures ComesBack(v.entries[k], c, cfg) && !v.entries[k].LNil? {
        PortableComesBack(v.entries[k], c, cfg);
      }
      if v.tag.ArrayTag? { ArrayComesBack(v, c, cfg); } else { ObjectComesBack(v, c, cfg); }
    }
  }

  /** What elements become, place by place. */
  lemma LiftElemsIs(elems: seq<Json>, m: map<Key, Lua>, c: MapConfig)
    requires forall k | k in m :: k.KInt? && 1 <= k.i <= |elems| && !m[k].LNil?
    requires forall i | 1 <= i <= |elems| :: Lift(elems[i - 1], c) == if KInt(i) in m then m[KInt(i)] else LNil
    ensures LiftElems(elems, c) == m
  {
    var got := LiftElems(elems, c);
    forall k ensures (k in got <==> k in m) && (k in got ==> got[k] == m[k]) {
      if k.KInt? && 1 <= k.i <= |elems| { assert Lift(elems[k.i - 1], c) == if k in m then m[k] else LNil; }
    }
    assert got == m;
  }

  lemma ArrayFits(v: Lua, c: MapConfig, cfg: Config)
    requires v.LTable? && v.tag.ArrayTag? && Portable(v, c)
    requires forall k | k in v.entries :: ComesBack(v.entries[k], c, cfg)
    ensures WellFormed(v, cfg) && Serialisable(v, cfg) && !IsObject(v, cfg)
    ensures forall k | k in v.entries :: k.KInt? && 1 <= k.i <= Top(v)
  {
    assert Reaches(v, v.entries.Keys, Top(v));
  }

  lemma ElemComesBack(v: Lua, i: int, c: MapConfig, cfg: Config)
    requires v.LTable? && WellFormed(v, cfg) && Converting(c, cfg)
    requires if KInt(i) in v.entries then ComesBack(v.entries[KInt(i)], c, cfg) else c.nullValue.LNil?
    ensures Lift(ElemAt(v, i, cfg), c) == if KInt(i) in v.entries then v.entries[KInt(i)] else LNil
  {}

  lemma NoGaps(v: Lua, i: int, c: MapConfig, cfg: Config)
    requires v.LTable? && v.tag.ArrayTag? && Portable(v, c) && Converting(c, cfg) && 1 <= i <= Top(v)
    ensures KInt(i) in v.entries || c.nullValue.LNil?
  {
    assert Reaches(v, v.entries.Keys, Top(v));
  }

  lemma ArrayComesBack(v: Lua, c: MapConfig, cfg: Config)
    requires v.LTable? && v.tag.ArrayTag? && Portable(v, c) && Converting(c, cfg)
    requires forall k | k in v.entries :: ComesBack(v.entries[k], c, cfg) && !v.entries[k].LNil?
    ensures ComesBack(v, c, cfg)
  {
    ArrayFits(v, c, cfg);
    var elems := ArrayOf(v, cfg);
    forall i | 1 <= i <= |elems|
      ensures Lift(elems[i - 1], c) == if KInt(i) in v.entries then v.entries[KInt(i)] else LNil
    {
      NoGaps(v, i, c, cfg);
      ElemComesBack(v, i, c, cfg);
    }
    LiftElemsIs(elems, v.entries, c);
    assert Lift(JArr(elems), c) == v;
  }

  /** What members become, key by key. */
  lemma LiftMembersIs(o: Json, m: map<Key, Lua>, c: MapConfig)
    requires o.JObj? && forall k | k in m :: k == ToKey(TextOf(k), c) && TextOf(k) in o.members && !m[k].LNil?
    requires forall k | k in m :: Lift(o.members[TextOf(k)], c) == m[k]
    requires forall s | s in o.members :: ToKey(s, c) in m
    ensures LiftMembers(o, c) == m
  {
    var got := LiftMembers(o, c);
    forall k ensures (k in got <==> k in m) && (k in got ==> got[k] == m[k]) {}
    assert got == m;
  }

  lemma ObjectFits(v: Lua, c: MapConfig, cfg: Config)
    requires v.LTable? && v.tag.ObjectTag? && Portable(v, c) && Converting(c, cfg)
    requires forall k | k in v.entries :: ComesBack(v.entries[k], c, cfg)
    ensures WellFormed(v, cfg) && Serialisable(v, cfg)
  {
    var m := v.entries;
    forall k | k in m ensures !k.KOther? && (IntOf(k).Some? ==> IntOf(k).value <= LUA_MAXINTEGER) {
      assert k == ToKey(TextOf(k), c);
    }
  }

  lemma KeysAreStrings(v: Lua, c: MapConfig)
    requires v.LTable? && v.tag.ObjectTag? && Portable(v, c)
    ensures forall k | k in v.entries :: k == ToKey(TextOf(k), c)
  {}

  lemma MembersComeBack(m: map<Key, Lua>, members: map<string, Json>, c: MapConfig)
    requires forall k | k in m :: k == ToKey(TextOf(k), c) && !m[k].LNil?
    requires forall k | k in m :: TextOf(k) in members && Lift(members[TextOf(k)], c) == m[k]
    requires forall s | s in members :: exists k :: k in m && TextOf(k) == s
    ensures LiftMembers(JObj(members), c) == m
  {
    forall s | s in members ensures ToKey(s, c) in m {
      var k :| k in m && TextOf(k) == s;
      assert k == ToKey(TextOf(k), c);
    }
    LiftMembersIs(JObj(members), m, c);
  }

  lemma MembersLift(v: Lua, c: MapConfig, cfg: Config) returns (members: map<string, Json>)
    requires v.LTable? && WellFormed(v, cfg) && IsObject(v, cfg)
    requires forall k | k in v.entries :: ComesBack(v.entries[k], c, cfg)
    ensures ToJson(v, cfg) == JObj(members)
    ensures forall k | k in v.entries :: TextOf(k) in members && Lift(members[TextOf(k)], c) == v.entries[k]
    ensures forall s | s in members :: exists k :: k in v.entries && TextOf(k) == s
  {
    members := ObjectOf(v, cfg);
    forall k | k in v.entries ensures Lift(members[TextOf(k)], c) == v.entries[k] {
      assert ComesBack(v.entries[k], c, cfg);
    }
  }

  lemma ObjectLift(v: Lua, members: map<string, Json>, c: MapConfig)
    requires v.LTable? && v.tag.ObjectTag? && LiftMembers(JObj(members), c) == v.entries
    ensures Lift(JObj(members), c) == v
  {}

  lemma ObjectComesBack(v: Lua, c: MapConfig, cfg: Config)
    requires v.LTable? && v.tag.ObjectTag? && Portable(v, c) && Converting(c, cfg)
    requires forall k | k in v.entries :: ComesBack(v.entries[k], c, cfg) && !v.entries[k].LNil?
    ensures ComesBack(v, c, cfg)
  {
    ObjectFits(v, c, cfg);
    var members := MembersLift(v, c, cfg);
    assert LiftMembers(JObj(members), c) == v.entries by {
      KeysAreStrings(v, c);
      MembersComeBack(v.entries, members, c);
    }
    ObjectLift(v, members, c);
  }

  /** Serialising a value and mapping the document back. */
  method ForthAndBack(v: Lua, toks: seq<Token>, c: MapConfig, cfg: Config) returns (r: Result<Json, string>, w: Lua)
    requires Portable(v, c) && Converting(c, cfg) && WellFormed(v, cfg) && Yields(ToJson(v, cfg), toks)
    ensures r.Ok? && Lift(r.value, c) == v
    ensures w == if v.LTable? && v.entries == map[] then LTable(Untagged, map[]) else v
  {
    PortableComesBack(v, c, cfg);
    r := ToSql(v, cfg);
    w := Map(r.value, toks, c);
    if EmptyRoot(r.value) { assert v.LTable? && v.entries == map[]; }
  }

  // ---- Every document has a token stream ----

  /** A document as an element or a member's value. */
  ghost function Inner(j: Json, inArray: bool): seq<Token>
    decreases j, 2
  {
    if !Atomic(j) then Tokens(j) else if inArray then [Elem(j)] else [Value(j)]
  }

  ghost function Tokens(j: Json): seq<Token>
    requires !Atomic(j)
    decreases j, 1
  {
    if j.JArr? then [BeginArray] + ElemTokens(j.elems) + [EndArray]
    else [BeginObject] + MemberTokens(j, j.members.Keys) + [EndObject]
  }

  ghost function ElemTokens(elems: seq<Json>): seq<Token>
    decreases elems, 0
  {
    if elems == [] then [] else ElemTokens(elems[..|elems| - 1]) + Inner(elems[|elems| - 1], true)
  }

  ghost function MemberTokens(o: Json, names: set<string>): seq<Token>
    requires o.JObj? && names <= o.members.Keys
    decreases o, 0, |names|
  {
    if names == {} then []
    else
      var s :| s in names;
      MemberTokens(o, names - {s}) + ([JsonbValues.Key(s)] + Inner(o.members[s], false))
  }

  lemma {:induction false} ParsesBoth(p: Parse, a: seq<Token>, q: Parse, b: seq<Token>, r: Parse)
    requires Parses(p, a, q) && Parses(q, b, r)
    ensures Parses(p, a + b, r)
    decreases |a|
  {
    if a == [] {
      assert a + b == b;
    } else {
      ParsesBoth(Push(p, a[0]), a[1..], q, b, r);
      assert (a + b)[1..] == a[1..] + b;
    }
  }

  lemma ParsesOne(p: Parse, t: Token)
    requires Legal(p, t)
    ensures Parses(p, [t], Push(p, t))
  {
    assert Parses(Push(p, t), [t][1..], Push(p, t));
  }

  /** Brackets that fit around tokens that fit. */
  lemma ParsesAround(p: Parse, begin: Token, toks: seq<Token>, r: Parse, end: Token)
    requires Legal(p, begin) && Parses(Push(p, begin), toks, r) && Legal(r, end)
    ensures Parses(p, [begin] + toks + [end], Push(r, end))
  {
    ParsesOne(p, begin);
    ParsesOne(r, end);
    ParsesBoth(p, [begin], Push(p, begin), toks, r);
    ParsesBoth(p, [begin] + toks, r, [end], Push(r, end));
  }

  /** The state once a value has been taken. */
  ghost function Taken(p: Parse, j: Json): Parse
    requires p.open == [] || Takes(p.open[|p.open| - 1])
  {
    if p.open == [] then Parse([], Some(j)) else p.(open := p.open[..|p.open| - 1] + [Add(p.open[|p.open| - 1], j)])
  }

  lemma {:induction false} TokensParse(j: Json, p: Parse)
    requires !Atomic(j) && p.done.None? && (p.open == [] || Takes(p.open[|p.open| - 1]))
    ensures Parses(p, Tokens(j), Taken(p, j))
    ensures forall t | t in Tokens(j) :: Flat(t)
    decreases j, 1
  {
    if j.JArr? {
      var r := p.(open := p.open + [PArr(j.elems)]);
      ElemsParse(j.elems, p);
      assert Legal(r, EndArray) && Push(r, EndArray) == Taken(p, j);
      ParsesAround(p, BeginArray, ElemTokens(j.elems), r, EndArray);
    } else {
      var r := p.(open := p.open + [PObj(j.members, None)]);
      MembersParse(j, j.members.Keys, p);
      assert Restrict(j.members, j.members.Keys) == j.members;
      assert Legal(r, EndObject) && Push(r, EndObject) == Taken(p, j);
      ParsesAround(p, BeginObject, MemberTokens(j, j.members.Keys), r, EndObject);
    }
  }

  lemma {:induction false} InnerParse(j: Json, p: Parse)
    requires p.done.None? && p.open != [] && Takes(p.open[|p.open| - 1])
    ensures var toks := Inner(j, p.open[|p.open| - 1].PArr?);
            Parses(p, toks, Taken(p, j)) && forall t | t in toks :: Flat(t)
    decreases j, 2
  {
    var c := p.open[|p.open| - 1];
    if !Atomic(j) {
      TokensParse(j, p);
    } else {
      var t := if c.PArr? then Elem(j) else Value(j);
      ParsesOne(p, t);
      assert Push(p, t).open == Taken(p, j).open;
    }
  }

  lemma {:induction false} ElemsParse(elems: seq<Json>, p: Parse)
    requires p.done.None?
    ensures Parses(p.(open := p.open + [PArr([])]), ElemTokens(elems), p.(open := p.open + [PArr(elems)]))
    ensures forall t | t in ElemTokens(elems) :: Flat(t)
    decreases elems, 0
  {
    if elems != [] {
      var n := |elems| - 1;
      var most := p.(open := p.open + [PArr(elems[..n])]);
      ElemsParse(elems[..n], p);
      InnerParse(elems[n], most);
      assert Taken(most, elems[n]).open == p.open + [PArr(elems)] by { assert elems[..n] + [elems[n]] == elems; }
      ParsesBoth(p.(open := p.open + [PArr([])]), ElemTokens(elems[..n]), most, Inner(elems[n], true),
        Taken(most, elems[n]));
    }
  }

  ghost function Restrict(m: map<string, Json>, names: set<string>): map<string, Json> {
    map s | s in m && s in names :: m[s]
  }

  lemma {:induction false} MembersParse(o: Json, names: set<string>, p: Parse)
    requires o.JObj? && names <= o.members.Keys && p.done.None?
    ensures var from := p.(open := p.open + [PObj(map[], None)]);
            var to := p.(open := p.open + [PObj(Restrict(o.members, names), None)]);
            Parses(from, MemberTokens(o, names), to)
    ensures forall t | t in MemberTokens(o, names) :: Flat(t)
    decreases o, 0, |names|
  {
    if names == {} {
      assert Restrict(o.members, names) == map[];
    } else {
      var s :| s in names && MemberTokens(o, names) ==
        MemberTokens(o, names - {s}) + ([JsonbValues.Key(s)] + Inner(o.members[s], false));
      var from := p.(open := p.open + [PObj(map[], None)]);
      var most := p.(open := p.open + [PObj(Restrict(o.members, names - {s}), None)]);
      MembersParse(o, names - {s}, p);
      var keyed := Push(most, JsonbValues.Key(s));
      ParsesOne(most, JsonbValues.Key(s));
      InnerParse(o.members[s], keyed);
      var to := Taken(keyed, o.members[s]);
      assert to.open == p.open + [PObj(Restrict(o.members, names), None)] by {
        assert Restrict(o.members, names) == Restrict(o.members, names - {s})[s := o.members[s]];
      }
      ParsesBoth(most, [JsonbValues.Key(s)], keyed, Inner(o.members[s], false), to);
      ParsesBoth(from, MemberTokens(o, names - {s}), most, [JsonbValues.Key(s)] + Inner(o.members[s], false), to);
    }
  }

  /** So what the mapping is proved for covers every document. */
  lemma EveryDocumentYields(j: Json)
    ensures exists toks :: Yields(j, toks)
  {
    if Atomic(j) {
      assert Yields(j, [BeginArray, Elem(j), EndArray]);
    } else {
      TokensParse(j, Parse([], None));
      assert Yields(j, Tokens(j));
    }
  }
}
