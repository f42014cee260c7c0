/** jsonb documents as Lua values: the token loop over an explicit Lua stack, proved to build what a
recursive definition says, and the round trip through the serialiser. */
module JsonbMap {
  import opened Options
  import opened JsonbValues
  import opened JsonbToSql

  /** How documents are mapped: what a null becomes (nil for no null value), whether numbers stay
      numeric datums or are converted, and how Lua reads a string as an integer. */
  datatype MapConfig = MapConfig(nullValue: Lua, keepNumeric: bool, tonumber: int -> Lua,
    tointeger: string -> Option<int>)

  predicate Atomic(j: Json) { !j.JArr? && !j.JObj? }

  function ScalarToLua(j: Json, c: MapConfig): Lua
    requires Atomic(j)
  {
    match j
    case JNull => c.nullValue
    case JBool(b) => LBool(b)
    case JNum(n) => if c.keepNumeric then LDatum(j) else c.tonumber(n)
    case JStr(s) => LStr(s)
  }

  /** The table key that a string is. */
  function ToKey(s: string, c: MapConfig): (k: Key)
    ensures TextOf(k) == s && !k.KInt? && IntOf(k) == c.tointeger(s)
  {
    var i := c.tointeger(s);
    if i.Some? then KNumeral(s, i.value) else KText(s)
  }

  // ---- The recursive definition ----

  /** Arrays keep their positions, objects their keys; what becomes nil is not there. */
  ghost function Lift(j: Json, c: MapConfig): Lua
    decreases j, 1
  {
    match j
    case JArr(elems) => LTable(ArrayTag, LiftElems(elems, c))
    case JObj(_) => LTable(ObjectTag, LiftMembers(j, c))
    case _ => ScalarToLua(j, c)
  }

  /** The keys 1 to n. */
  ghost function Indexes(n: nat): (s: set<Key>)
    ensures forall k :: k in s <==> k.KInt? && 1 <= k.i <= n
  {
    set i | 1 <= i <= n :: KInt(i)
  }

  ghost function LiftElems(elems: seq<Json>, c: MapConfig): (m: map<Key, Lua>)
    ensures forall k :: k in m <==> k.KInt? && 1 <= k.i <= |elems| && !Lift(elems[k.i - 1], c).LNil?
    ensures forall k | k in m :: m[k] == Lift(elems[k.i - 1], c)
    decreases elems, 0
  {
    map k | k in Indexes(|elems|) && !Lift(elems[k.i - 1], c).LNil? :: Lift(elems[k.i - 1], c)
  }

  ghost function LiftMembers(o: Json, c: MapConfig): (m: map<Key, Lua>)
    requires o.JObj?
    ensures forall k :: k in m <==>
            k == ToKey(TextOf(k), c) && TextOf(k) in o.members && !Lift(o.members[TextOf(k)], c).LNil?
    ensures forall k | k in m :: m[k] == Lift(o.members[TextOf(k)], c)
    decreases o, 0
  {
    var at := set s | s in o.members && !Lift(o.members[s], c).LNil? :: ToKey(s, c);
    map k | k in at :: Lift(o.members[TextOf(k)], c)
  }

  predicate EmptyRoot(j: Json) { j == JArr([]) || j == JObj(map[]) }

  /** An empty document is a plain empty table. */
  ghost function LiftRoot(j: Json, c: MapConfig): Lua {
    if EmptyRoot(j) then LTable(Untagged, map[]) else Lift(j, c)
  }

  // ---- What the iterator yields ----

  /** From p, the tokens lead to q. */
  ghost predicate Parses(p: Parse, toks: seq<Token>, q: Parse)
    decreases |toks|
  {
    if toks == [] then p == q else Legal(p, toks[0]) && Parses(Push(p, toks[0]), toks[1..], q)
  }

  ghost predicate Flat(t: Token) { (t.Value? || t.Elem?) ==> Atomic(t.v) }

  /** A scalar document comes wrapped in a dummy array; any other as tokens that denote it. */
  ghost predicate Yields(j: Json, toks: seq<Token>) {
    if Atomic(j) then toks == [BeginArray, Elem(j), EndArray]
    else (forall t | t in toks :: Flat(t)) && Parses(Parse([], None), toks, Parse([], Some(j)))
  }

  // ---- The Lua stack while a document is being mapped ----

  /** A table and, for an array, the last index; for an object with a key at hand, the key. */
  ghost function Slots(p: Partial, c: MapConfig): seq<Lua> {
    match p
    case PArr(elems) => [LTable(ArrayTag, LiftElems(elems, c)), LNum(|elems|)]
    case PObj(members, None) => [LTable(ObjectTag, LiftMembers(JObj(members), c))]
    case PObj(members, Some(s)) => [LTable(ObjectTag, LiftMembers(JObj(members), c)), LStr(s)]
  }

  ghost function OpenImage(open: seq<Partial>, c: MapConfig): (s: seq<Lua>)
    ensures |s| >= 1 && (open == [] ==> s == [LNil])
    decreases |open|
  {
    if open == [] then [LNil] else OpenImage(open[..|open| - 1], c) + Slots(open[|open| - 1], c)
  }

  ghost function Image(p: Parse, c: MapConfig): seq<Lua> {
    if p.done.Some? then [LNil, Lift(p.done.value, c)] else OpenImage(p.open, c)
  }

  /** Setting an entry; setting nil removes it. */
  function SetEntry(t: Lua, k: Key, v: Lua): Lua
    requires t.LTable?
  {
    LTable(t.tag, if v.LNil? then t.entries - {k} else t.entries[k := v])
  }

  lemma LiftElem(elems: seq<Json>, v: Json, c: MapConfig)
    ensures SetEntry(LTable(ArrayTag, LiftElems(elems, c)), KInt(|elems| + 1), Lift(v, c))
         == LTable(ArrayTag, LiftElems(elems + [v], c))
  {
    var m, m' := LiftElems(elems, c), LiftElems(elems + [v], c);
    var want := SetEntry(LTable(ArrayTag, m), KInt(|elems| + 1), Lift(v, c)).entries;
    forall k ensures (k in m' <==> k in want) && (k in m' ==> m'[k] == want[k]) {
      if k.KInt? && 1 <= k.i <= |elems| + 1 {
        assert (elems + [v])[k.i - 1] == if k.i <= |elems| then elems[k.i - 1] else v;
      }
    }
    assert m' == want;
  }

  lemma LiftMember(members: map<string, Json>, s: string, v: Json, c: MapConfig)
    ensures SetEntry(LTable(ObjectTag, LiftMembers(JObj(members), c)), ToKey(s, c), Lift(v, c))
         == LTable(ObjectTag, LiftMembers(JObj(members[s := v]), c))
  {
    var k0 := ToKey(s, c);
    var m, m' := LiftMembers(JObj(members), c), LiftMembers(JObj(members[s := v]), c);
    var want := SetEntry(LTable(ObjectTag, m), k0, Lift(v, c)).entries;
    forall k ensures (k in m' <==> k in want) && (k in m' ==> m'[k] == want[k]) {
      if k == k0 {
        assert TextOf(k) == s && JObj(members[s := v]).members[s] == v;
      } else {
        assert k == ToKey(TextOf(k), c) ==> TextOf(k) != s;
        assert k in want <==> k in m;
      }
    }
    assert m' == want;
  }

  /** Storing a value into the container that waits for it. */
  method Store(stack: seq<Lua>, v: Lua, ghost rest: seq<Lua>, ghost p: Partial, ghost j: Json, c: MapConfig)
      returns (stack': seq<Lua>)
    requires Takes(p) && stack == rest + Slots(p, c) && v == Lift(j, c)
    ensures stack' == rest + Slots(Add(p, j), c)
  {
    var n := |stack|;
    var t, k := stack[n - 2], stack[n - 1];
    assert |Slots(p, c)| == 2 && t == Slots(p, c)[0] && k == Slots(p, c)[1] && stack[..n - 2] == rest;
    if k.LNum? {
      LiftElem(p.elems, j, c);
      stack' := stack[..n - 2] + [SetEntry(t, KInt(k.n + 1), v), LNum(k.n + 1)];
    } else {
      LiftMember(p.members, p.key.value, j, c);
      stack' := stack[..n - 2] + [SetEntry(t, ToKey(k.s, c), v)];
    }
  }

  /** The end of a container: it is stored into the one around it, or left as the result. */
  method EndContainer(stack: seq<Lua>, t: Token, ghost p: Parse, c: MapConfig) returns (stack': seq<Lua>)
    requires Legal(p, t) && (t.EndArray? || t.EndObject?) && stack == Image(p, c)
    ensures stack' == Image(Push(p, t), c)
  {
    var n := |stack|;
    ghost var top, v := |p.open| - 1, Finished(p.open[|p.open| - 1]);
    EndShape(stack, p, t, c);
    stack' := if t.EndArray? then stack[..n - 1] else stack;
    var m := |stack'|;
    var isToplevel := stack'[m - 2].LNil?;
    if !isToplevel {
      Enclosing(p, t, c);
      stack' := Store(stack'[..m - 1], stack'[m - 1], OpenImage(p.open[..top - 1], c), p.open[top - 1], v, c);
    } else {
      assert top == 0 && OpenImage(p.open[..top], c) == [LNil];
    }
  }

  /** A finished container is on top of the stack, above a key or an index or, if it is the outermost,
      above nil. */
  lemma EndShape(stack: seq<Lua>, p: Parse, t: Token, c: MapConfig)
    requires Legal(p, t) && (t.EndArray? || t.EndObject?) && stack == Image(p, c)
    ensures var top := |p.open| - 1;
            var stack' := if t.EndArray? then stack[..|stack| - 1] else stack;
            && stack' == OpenImage(p.open[..top], c) + [Lift(Finished(p.open[top]), c)]
            && (stack'[|stack'| - 2].LNil? <==> top == 0)
  {
    var top := |p.open| - 1;
    var below, table := OpenImage(p.open[..top], c), Slots(p.open[top], c)[0];
    assert table == Lift(Finished(p.open[top]), c);
    assert stack == below + Slots(p.open[top], c);
    assert (if t.EndArray? then stack[..|stack| - 1] else stack) == below + [table];
    if top > 0 { Enclosing(p, t, c); }
  }

  /** Below a nested container are the slots of the one around it, which takes it. */
  lemma Enclosing(p: Parse, t: Token, c: MapConfig)
    requires Legal(p, t) && (t.EndArray? || t.EndObject?) && |p.open| > 1
    ensures var top := |p.open| - 1;
            var rest := OpenImage(p.open[..top - 1], c);
            && OpenImage(p.open[..top], c) == rest + Slots(p.open[top - 1], c)
            && Image(Push(p, t), c) == rest + Slots(Add(p.open[top - 1], Finished(p.open[top])), c)
  {
    var top := |p.open| - 1;
    assert p.open[..top][..top - 1] == p.open[..top - 1];
    assert Push(p, t).open[..top - 1] == p.open[..top - 1];
  }

  /** One token of a document that is not a scalar. */
  method Step(stack: seq<Lua>, t: Token, ghost p: Parse, c: MapConfig) returns (stack': seq<Lua>)
    requires Legal(p, t) && Flat(t) && stack == Image(p, c)
    ensures stack' == Image(Push(p, t), c)
  {
    if t.EndArray? || t.EndObject? {
      stack' := EndContainer(stack, t, p, c);
    } else if t.Value? || t.Elem? {
      ghost var top := |p.open| - 1;
      assert Push(p, t).open[..top] == p.open[..top];
      stack' := Store(stack, ScalarToLua(t.v, c), OpenImage(p.open[..top], c), p.open[top], t.v, c);
    } else {
      Pushed(p, t, c);
      stack' := if t.Key? then stack + [LStr(t.s)]
                else if t.BeginArray? then stack + [LTable(ArrayTag, map[]), LNum(0)]
                else stack + [LTable(ObjectTag, map[])];
    }
  }

  /** A key and the start of a container go on top of the stack. */
  lemma Pushed(p: Parse, t: Token, c: MapConfig)
    requires Legal(p, t) && (t.Key? || t.BeginArray? || t.BeginObject?)
    ensures Image(Push(p, t), c) == Image(p, c) + match t
                                                  case Key(s) => [LStr(s)]
                                                  case BeginArray => [LTable(ArrayTag, map[]), LNum(0)]
                                                  case _ => [LTable(ObjectTag, map[])]
  {
    var open, open' := p.open, Push(p, t).open;
    var n := |open'| - 1;
    assert open'[..n] == open[..n];
    if !t.Key? {
      assert open[..n] == open;
      assert LiftElems([], c) == map[] && LiftMembers(JObj(map[]), c) == map[];
    }
  }

  /** Maps a document to Lua, token by token. */
  method Map(j: Json, toks: seq<Token>, c: MapConfig) returns (r: Lua)
    requires Yields(j, toks)
    ensures r == LiftRoot(j, c)
    ensures j == JArr([]) || j == JObj(map[]) ==> r == LTable(Untagged, map[])
    // Scalars are what they are, numbers as they are wanted.
    ensures match j
            case JNull => r == c.nullValue
            case JBool(b) => r == LBool(b)
            case JNum(n) => r == if c.keepNumeric then LDatum(JNum(n)) else c.tonumber(n)
            case JStr(s) => r == LStr(s)
            case _ => r.LTable?
  {
    if EmptyRoot(j) { return LTable(Untagged, map[]); }
    var isScalar := Atomic(j);
    var stack := [LNil];
    ghost var p := Parse([], None);
    for i := 0 to |toks|
      invariant isScalar ==> stack == if i < 2 then [LNil] else [LNil, Lift(j, c)]
      invariant !isScalar ==> stack == Image(p, c) && Parses(p, toks[i..], Parse([], Some(j)))
    {
      var t := toks[i];
      if isScalar {
        if t.Elem? { stack := stack + [ScalarToLua(t.v, c)]; }
      } else {
        assert toks[i..][0] == t && toks[i..][1..] == toks[i + 1..];
        stack := Step(stack, t, p, c);
        p := Push(p, t);
      }
    }
    r := stack[|stack| - 1];
  }
}
