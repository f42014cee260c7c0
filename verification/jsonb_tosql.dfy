/** Lua values as jsonb: the explicit-stack serialiser, its array inference and its null gap filling,
proved to build what a short recursive definition says. */
module JsonbToSql {
  import opened Options
  import opened JsonbValues

  const INT_MAX := 0x7fff_ffff
  const LUA_MAXINTEGER := 0x7fff_ffff_ffff_ffff

  /** A table key: an integer, a string (or other number) without an integer reading, a string that
      reads as an integer, or something that cannot be a key of a JSON object. */
  datatype Key = KInt(i: int) | KText(s: string) | KNumeral(s: string, i: int) | KOther

  /** What the metatable says about a table. */
  datatype Tag = Untagged | ObjectTag | ArrayTag

  /** Lua values. A datum may hold any jsonb document; a unique value is a table or userdata that is
      only ever compared for identity. */
  datatype Lua =
    | LNil
    | LBool(b: bool)
    | LNum(n: int)
    | LStr(s: string)
    | LDatum(j: Json)
    | LUnique(id: nat)
    | LFunction
    | LTable(tag: Tag, entries: map<Key, Lua>)

  datatype Config = Config(nullValue: Option<Lua>, emptyObject: bool, arrayThresh: int, arrayFrac: int)

  predicate IsNull(v: Lua, cfg: Config) {
    !v.LTable? && cfg.nullValue == Some(v)
  }

  function IntOf(k: Key): Option<int> {
    match k case KInt(i) => Some(i) case KNumeral(_, i) => Some(i) case _ => None
  }

  /** The text a key has in a JSON object. */
  function TextOf(k: Key): string {
    match k
    case KInt(i) => Decimal(i)
    case KText(s) => s
    case KNumeral(s, _) => s
    case KOther => ""
  }

  function Decimal(i: int): string {
    if i < 0 then "-" + Digits(-i) else Digits(i)
  }

  function Digits(n: nat): string {
    if n < 10 then [('0' as int + n) as char] else Digits(n / 10) + [('0' as int + n % 10) as char]
  }

  // ---- The recursive definition ----

  /** A table is taken for an object if it says so; and, unless it says it is an array, if it is empty
      and that is how empty tables are wanted, if a key is not an integer, if a key is below 1, or if the
      integer keys start too high or reach too far for the number of keys. */
  ghost predicate IsObject(t: Lua, cfg: Config)
    requires t.LTable?
  {
    var m := t.entries;
    || t.tag.ObjectTag?
    || (t.tag.Untagged? && m == map[] && cfg.emptyObject)
    || (t.tag.Untagged? && exists k | k in m :: IntOf(k).None?)
    || (t.tag.Untagged? && exists k | k in m :: IntOf(k).Some? && IntOf(k).value < 1)
    || (t.tag.Untagged? && m != map[] && forall k | k in m && IntOf(k).Some? :: IntOf(k).value > cfg.arrayThresh)
    || (t.tag.Untagged? && exists k | k in m :: IntOf(k).Some? && IntOf(k).value > cfg.arrayFrac * |m|)
  }

  /** The keys that are serialised: all of an object's, the integers of an array. */
  ghost predicate Serialised(t: Lua, k: Key, cfg: Config)
    requires t.LTable?
  {
    k in t.entries && (IsObject(t, cfg) || IntOf(k).Some?)
  }

  /** What the serialiser can be given: array keys are genuine integers from 1 on, and the keys of an
      object have different texts. */
  ghost predicate WellFormed(v: Lua, cfg: Config) {
    v.LTable? ==>
      && (forall k | k in v.entries && IntOf(k).Some? :: IntOf(k).value <= LUA_MAXINTEGER)
      && (!IsObject(v, cfg) ==> forall k | k in v.entries && IntOf(k).Some? :: k.KInt? && 1 <= k.i <= INT_MAX)
      && (IsObject(v, cfg) ==> forall j, k | j in v.entries && k in v.entries && j != k :: TextOf(j) != TextOf(k))
      && forall k | k in v.entries :: WellFormed(v.entries[k], cfg)
  }

  /** Whether a value can be serialised at all: every key must be fit to be one, and so must every
      value that is looked at. */
  ghost predicate Serialisable(v: Lua, cfg: Config) {
    IsNull(v, cfg) ||
    match v
    case LUnique(_) => false
    case LFunction => false
    case LTable(_, m) =>
      && KOther !in m
      && forall k | k in m && Serialised(v, k, cfg) :: Serialisable(m[k], cfg)
    case _ => true
  }

  ghost predicate Reaches(t: Lua, s: set<Key>, n: int)
    requires t.LTable?
  {
    n >= 0 && (n == 0 || KInt(n) in t.entries) && forall i | KInt(i) in s :: i <= n
  }

  /** The largest integer key, 0 if there is none. */
  ghost function Top(t: Lua): (n: nat)
    requires t.LTable?
    ensures Reaches(t, t.entries.Keys, n)
  {
    TopExists(t, t.entries.Keys);
    var n :| Reaches(t, t.entries.Keys, n);
    n
  }

  lemma {:induction false} TopExists(t: Lua, s: set<Key>)
    requires t.LTable? && s <= t.entries.Keys
    ensures exists n :: Reaches(t, s, n)
    decreases |s|
  {
    if s == {} {
      assert Reaches(t, s, 0);
    } else {
      var k :| k in s;
      TopExists(t, s - {k});
      var n :| Reaches(t, s - {k}, n);
      assert Reaches(t, s, if k.KInt? && k.i > n then k.i else n);
    }
  }

  /** The key of t with text s. */
  ghost function KeyFor(t: Lua, s: string): (k: Key)
    requires t.LTable? && exists k :: k in t.entries && TextOf(k) == s
    ensures k in t.entries && TextOf(k) == s
  {
    var k :| k in t.entries && TextOf(k) == s;
    k
  }

  /** The jsonb document a Lua value stands for. An array has an element for each position up to its
      largest integer key, null where there is no entry. */
  ghost function ToJson(v: Lua, cfg: Config): Json
    requires WellFormed(v, cfg)
    decreases v
  {
    if IsNull(v, cfg) then JNull
    else match v
      case LNil => JNull
      case LBool(b) => JBool(b)
      case LNum(n) => JNum(n)
      case LStr(s) => JStr(s)
      case LDatum(j) => j
      case LUnique(_) => JNull
      case LFunction => JNull
      case LTable(_, m) =>
        if IsObject(v, cfg) then
          var texts := set k | k in m :: TextOf(k);
          JObj(map s | s in texts :: ToJson(m[KeyFor(v, s)], cfg))
        else
          JArr(seq(Top(v), i requires 0 <= i < Top(v) =>
            if KInt(i + 1) in m then ToJson(m[KInt(i + 1)], cfg) else JNull))
  }

  /** An array that was only inferred to be one has at most arrayFrac elements for each key of its table. */
  lemma InferredArrayBound(t: Lua, cfg: Config)
    requires t.LTable? && t.tag.Untagged? && WellFormed(t, cfg) && ToJson(t, cfg).JArr?
    ensures |ToJson(t, cfg).elems| <= cfg.arrayFrac * |t.entries|
  {
    assert |ToJson(t, cfg).elems| == Top(t);
    if Top(t) > 0 {
      assert IntOf(KInt(Top(t))) == Some(Top(t));
    }
  }

  /** An untagged table without entries is an object exactly if that is how empty tables are wanted. */
  lemma EmptyTable(cfg: Config)
    ensures var t := LTable(Untagged, map[]);
            WellFormed(t, cfg) && ToJson(t, cfg) == if cfg.emptyObject then JObj(map[]) else JArr([])
  {
    var t := LTable(Untagged, map[]);
    if cfg.emptyObject {
      assert ToJson(t, cfg).members == map[];
    } else {
      assert Top(t) == 0 && ToJson(t, cfg).elems == [];
    }
  }

  /** A table with a key that is not an integer is an object unless it says it is an array. */
  lemma TextKey(t: Lua, k: Key, cfg: Config)
    requires t.LTable? && t.tag.Untagged? && k in t.entries && IntOf(k).None? && WellFormed(t, cfg)
    ensures ToJson(t, cfg).JObj?
  {}

  function Two(i: int, k: int, x: Lua, y: Lua): (t: Lua)
    ensures t.LTable?
  {
    LTable(Untagged, map[KInt(i) := x, KInt(k) := y])
  }

  lemma TwoIsObject(i: int, k: int, x: Lua, y: Lua, cfg: Config)
    requires i < k
    ensures IsObject(Two(i, k, x, y), cfg) <==> !(1 <= i <= cfg.arrayThresh && k <= 2 * cfg.arrayFrac)
  {
    var m := Two(i, k, x, y).entries;
    assert m.Keys == {KInt(i), KInt(k)} && |m| == 2;
    assert KInt(i) in m && KInt(k) in m && IntOf(KInt(i)) == Some(i) && IntOf(KInt(k)) == Some(k);
  }

  /** What array position i holds. */
  ghost function ElemAt(t: Lua, i: int, cfg: Config): Json
    requires t.LTable? && WellFormed(t, cfg)
  {
    if KInt(i) in t.entries then ToJson(t.entries[KInt(i)], cfg) else JNull
  }

  /** What the array that a table stands for consists of. */
  lemma ArrayOf(t: Lua, cfg: Config) returns (elems: seq<Json>)
    requires t.LTable? && WellFormed(t, cfg) && !IsObject(t, cfg)
    ensures ToJson(t, cfg) == JArr(elems) && |elems| == Top(t)
    ensures forall i | 1 <= i <= |elems| :: elems[i - 1] == ElemAt(t, i, cfg)
  {
    elems := ToJson(t, cfg).elems;
  }

  /** What the object that a table stands for consists of. */
  lemma ObjectOf(t: Lua, cfg: Config) returns (members: map<string, Json>)
    requires t.LTable? && WellFormed(t, cfg) && IsObject(t, cfg)
    ensures ToJson(t, cfg) == JObj(members)
    ensures forall s | s in members :: exists k :: k in t.entries && TextOf(k) == s
    ensures forall k | k in t.entries :: TextOf(k) in members && members[TextOf(k)] == ToJson(t.entries[k], cfg)
  {
    members := ToJson(t, cfg).members;
    forall k | k in t.entries ensures TextOf(k) in members && members[TextOf(k)] == ToJson(t.entries[k], cfg) {
      assert KeyFor(t, TextOf(k)) == k;
    }
  }

  /** The places of a table with two integer keys from 1 on. */
  lemma TwoElems(t: Lua, i: int, k: int, cfg: Config)
    requires t.LTable? && t.entries.Keys == {KInt(i), KInt(k)} && 1 <= i < k && WellFormed(t, cfg)
    ensures Top(t) == k
    ensures ElemAt(t, i, cfg) == ToJson(t.entries[KInt(i)], cfg) && ElemAt(t, k, cfg) == ToJson(t.entries[KInt(k)], cfg)
    ensures forall n | n != i && n != k :: ElemAt(t, n, cfg) == JNull
  {
    assert KInt(i) in t.entries.Keys && KInt(k) in t.entries.Keys;
    assert Reaches(t, t.entries.Keys, Top(t));
  }

  lemma TwoMembers(t: Lua, i: int, k: int, cfg: Config)
    requires t.LTable? && t.entries.Keys == {KInt(i), KInt(k)} && WellFormed(t, cfg) && IsObject(t, cfg)
    ensures ToJson(t, cfg).JObj? && ToJson(t, cfg).members.Keys == {Decimal(i), Decimal(k)}
  {
    var members := ObjectOf(t, cfg);
    TwoTexts(t.entries.Keys, i, k, members.Keys);
  }

  lemma TwoTexts(keys: set<Key>, i: int, k: int, texts: set<string>)
    requires keys == {KInt(i), KInt(k)}
    requires (forall key | key in keys :: TextOf(key) in texts)
    requires forall s | s in texts :: exists key :: key in keys && TextOf(key) == s
    ensures texts == {Decimal(i), Decimal(k)}
  {
    assert KInt(i) in keys && KInt(k) in keys;
    assert TextOf(KInt(i)) == Decimal(i) && TextOf(KInt(k)) == Decimal(k);
  }

  /** An untagged table with two integer keys is an array exactly if the lower lies between 1 and the
      threshold, and the upper is at most twice the fraction; it then has as many elements as the upper key
      says, and otherwise two members, named by the keys' texts. */
  lemma TwoEntries(i: int, k: int, x: Lua, y: Lua, cfg: Config)
    requires i < k && WellFormed(Two(i, k, x, y), cfg)
    ensures var t := Two(i, k, x, y);
            var j := ToJson(t, cfg);
            if 1 <= i <= cfg.arrayThresh && k <= 2 * cfg.arrayFrac
            then j.JArr? && |j.elems| == k
                 && (forall n | 1 <= n <= k :: j.elems[n - 1] == ElemAt(t, n, cfg))
                 && forall n | n != i && n != k :: ElemAt(t, n, cfg) == JNull
            else j.JObj? && j.members.Keys == {Decimal(i), Decimal(k)}
  {
    var t := Two(i, k, x, y);
    TwoIsObject(i, k, x, y, cfg);
    assert t.entries.Keys == {KInt(i), KInt(k)};
    if IsObject(t, cfg) {
      TwoMembers(t, i, k, cfg);
    } else {
      var elems := ArrayOf(t, cfg);
      TwoElems(t, i, k, cfg);
    }
  }

  // ---- The text of an integer key ----

  /** A decimal numeral read digit by digit. */
  function Numeral(s: string): int
    decreases |s|
  {
    if s == "" then 0
    else if s[0] == '-' then -Numeral(s[1..])
    else Numeral(s[..|s| - 1]) * 10 + (s[|s| - 1] as int - '0' as int)
  }

  lemma {:induction false} DigitsRead(n: nat)
    ensures Numeral(Digits(n)) == n && Digits(n) != "" && Digits(n)[0] != '-'
    ensures forall i | 0 <= i < |Digits(n)| :: '0' <= Digits(n)[i] <= '9'
    ensures Digits(n)[0] == '0' ==> n == 0
  {
    if n < 10 {
      assert Digits(n)[..0] == "";
    } else {
      DigitsRead(n / 10);
      var s := Digits(n);
      assert s[..|s| - 1] == Digits(n / 10) && s[|s| - 1] == ('0' as int + n % 10) as char;
    }
  }

  /** An integer key's text is a numeral that reads as the integer, without leading zeros. */
  lemma DecimalReads(i: int)
    ensures Numeral(Decimal(i)) == i
    ensures var s := Decimal(i);
            var digits := if i < 0 then s[1..] else s;
            && digits != "" && (digits[0] == '0' ==> i == 0) && (i < 0 ==> s[0] == '-')
            && forall k | 0 <= k < |digits| :: '0' <= digits[k] <= '9'
  {
    DigitsRead(if i < 0 then -i else i);
    if i < 0 {
      assert Decimal(i)[1..] == Digits(-i);
    }
  }

  // ---- Classifying a container and listing its keys ----

  /** `keys` lists the elements of s, each once. */
  ghost predicate Lists(keys: seq<Key>, s: set<Key>) {
    && (forall k :: k in keys <==> k in s)
    && forall i, j | 0 <= i < j < |keys| :: keys[i] != keys[j]
  }

  ghost predicate Ascending(keys: seq<Key>) {
    && (forall i | 0 <= i < |keys| :: keys[i].KInt?)
    && forall i, j | 0 <= i < j < |keys| :: keys[i].KInt? && keys[j].KInt? && keys[i].i < keys[j].i
  }

  /** Sorts distinct integer keys, as Lua's own sort does. */
  method Sort(keys: seq<Key>, ghost s: set<Key>) returns (sorted: seq<Key>)
    requires Lists(keys, s) && forall i | 0 <= i < |keys| :: keys[i].KInt?
    ensures Lists(sorted, s) && Ascending(sorted)
  {
    sorted := [];
    for n := 0 to |keys|
      invariant Ascending(sorted)
      invariant forall k :: k in sorted <==> k in keys[..n]
    {
      var at := 0;
      while at < |sorted| && sorted[at].i < keys[n].i
        invariant 0 <= at <= |sorted| && forall i | 0 <= i < at :: sorted[i].i < keys[n].i
      {
        at := at + 1;
      }
      assert keys[n] !in keys[..n] && keys[..n + 1] == keys[..n] + [keys[n]];
      Inserted(sorted, at, keys[n]);
      sorted := sorted[..at] + [keys[n]] + sorted[at..];
    }
    assert keys[..|keys|] == keys;
  }

  /** Putting a key where it belongs adds it, and keeps the order. */
  lemma Inserted(sorted: seq<Key>, at: nat, k: Key)
    requires Ascending(sorted) && k.KInt? && k !in sorted && at <= |sorted|
    requires (forall i | 0 <= i < at :: sorted[i].i < k.i) && (at < |sorted| ==> sorted[at].i >= k.i)
    ensures Ascending(sorted[..at] + [k] + sorted[at..])
    ensures forall x :: x in sorted[..at] + [k] + sorted[at..] <==> x in sorted || x == k
  {
    forall x ensures x in sorted[..at] + [k] + sorted[at..] <==> x in sorted || x == k {
      assert sorted == sorted[..at] + sorted[at..];
    }
  }

  ghost function Integers(s: set<Key>): set<Key> { set k | k in s && IntOf(k).Some? }

  /** The bounds and counts gathered over the keys seen so far. */
  ghost predicate Counted(seen: set<Key>, numkeys: int, numintkeys: int, minIntkey: int, maxIntkey: int) {
    && numkeys == |seen| && numintkeys == |Integers(seen)|
    && (forall k | k in Integers(seen) :: minIntkey <= IntOf(k).value <= maxIntkey)
    && (minIntkey == LUA_MAXINTEGER || HasInt(seen, minIntkey))
    && (maxIntkey == 0 || HasInt(seen, maxIntkey))
  }

  ghost predicate HasInt(s: set<Key>, i: int) { exists k | k in s :: IntOf(k) == Some(i) }

  /** The key list of a container and whether it is an array: for an object all keys in the order they
      are met, for an array the integers in ascending order. Fails on a key that cannot be serialised. */
  method PushKeys(t: Lua, cfg: Config) returns (ok: bool, isArray: bool, keys: seq<Key>)
    requires t.LTable? && WellFormed(t, cfg)
    ensures ok <==> KOther !in t.entries
    ensures ok ==> isArray == !IsObject(t, cfg)
    ensures ok ==> Lists(keys, set k | k in t.entries && Serialised(t, k, cfg))
    ensures ok && isArray ==> Ascending(keys)
  {
    var g;
    isArray, keys := false, [];
    ok, g := GatherKeys(t);
    if !ok { return; }
    Decision(t, cfg, g);
    var knownObject, knownArray := t.tag.ObjectTag?, t.tag.ArrayTag?;
    if knownObject
       || (!knownArray
           && ((cfg.emptyObject && g.numkeys == 0)
               || g.numkeys != g.numintkeys
               || g.minIntkey < 1
               || (g.numintkeys > 0 && g.minIntkey > cfg.arrayThresh)
               || (g.numintkeys > 0 && g.maxIntkey > cfg.arrayFrac * g.numkeys)))
    {
      keys := g.keytab;
      assert (set k | k in t.entries && Serialised(t, k, cfg)) == t.entries.Keys;
    } else {
      isArray := true;
      ArrayKeys(t, cfg, g.numkeytab);
      keys := Sort(g.numkeytab, Integers(t.entries.Keys));
      assert (set k | k in t.entries && Serialised(t, k, cfg)) == Integers(t.entries.Keys);
    }
  }

  /** What the loop over the keys collects: all keys, the integer ones, how many of each, and bounds. */
  datatype Gathering = Gathering(keytab: seq<Key>, numkeytab: seq<Key>, numkeys: int, numintkeys: int,
                                 minIntkey: int, maxIntkey: int)

  ghost predicate Gathered(seen: set<Key>, g: Gathering) {
    && Lists(g.keytab, seen) && Lists(g.numkeytab, Integers(seen))
    && Counted(seen, g.numkeys, g.numintkeys, g.minIntkey, g.maxIntkey)
  }

  /** Goes over the entries in whatever order they are met. */
  method GatherKeys(t: Lua) returns (ok: bool, g: Gathering)
    requires t.LTable? && forall k | k in t.entries && IntOf(k).Some? :: IntOf(k).value <= LUA_MAXINTEGER
    ensures ok <==> KOther !in t.entries
    ensures ok ==> Gathered(t.entries.Keys, g)
  {
    g, ok := Gathering([], [], 0, 0, LUA_MAXINTEGER, 0), false;
    var all := t.entries.Keys;
    var rest := all;
    assert all - rest == {};
    while rest != {}
      invariant rest <= all && KOther !in all - rest && Gathered(all - rest, g)
      decreases |rest|
    {
      var key :| key in rest;
      if key.KOther? { return; }
      g := GatherKey(g, key, all - rest);
      TakeOne(all, rest, key);
      rest := rest - {key};
    }
    ok := true;
    assert all - rest == all;
  }

  lemma TakeOne(all: set<Key>, rest: set<Key>, key: Key)
    requires key in rest && rest <= all
    ensures (all - rest) + {key} == all - (rest - {key})
  {}

  method GatherKey(g: Gathering, key: Key, ghost seen: set<Key>) returns (g': Gathering)
    requires Gathered(seen, g) && key !in seen && (IntOf(key).Some? ==> IntOf(key).value <= LUA_MAXINTEGER)
    ensures Gathered(seen + {key}, g')
  {
    g' := g.(numkeys := g.numkeys + 1, keytab := g.keytab + [key]);
    var intval := IntOf(key);
    if intval.Some? {
      if intval.value > g.maxIntkey { g' := g'.(maxIntkey := intval.value); }
      if intval.value < g.minIntkey { g' := g'.(minIntkey := intval.value); }
      g' := g'.(numintkeys := g.numintkeys + 1, numkeytab := g.numkeytab + [key]);
      ListOne(g.numkeytab, Integers(seen), key);
    }
    CountOne(seen, key, g.numkeys, g.numintkeys, g.minIntkey, g.maxIntkey);
    ListOne(g.keytab, seen, key);
    IntegersOne(seen, key);
  }

  lemma ArrayKeys(t: Lua, cfg: Config, keys: seq<Key>)
    requires t.LTable? && WellFormed(t, cfg) && !IsObject(t, cfg) && Lists(keys, Integers(t.entries.Keys))
    ensures forall i | 0 <= i < |keys| :: keys[i].KInt?
  {
    forall i | 0 <= i < |keys| ensures keys[i].KInt? { assert keys[i] in keys; }
  }

  lemma ListOne(keys: seq<Key>, s: set<Key>, k: Key)
    requires Lists(keys, s) && k !in s
    ensures Lists(keys + [k], s + {k})
  {
    forall x ensures x in keys + [k] <==> x in s + {k} {}
  }

  lemma IntegersOne(s: set<Key>, k: Key)
    ensures Integers(s + {k}) == if IntOf(k).Some? then Integers(s) + {k} else Integers(s)
  {}

  /** The bounds and counts decide between array and object as defined. */
  lemma Decision(t: Lua, cfg: Config, g: Gathering)
    requires t.LTable? && Gathered(t.entries.Keys, g)
    requires forall k | k in t.entries && IntOf(k).Some? :: IntOf(k).value <= LUA_MAXINTEGER
    ensures IsObject(t, cfg) <==>
              (t.tag.ObjectTag?
               || (t.tag.Untagged?
                   && ((cfg.emptyObject && g.numkeys == 0)
                       || g.numkeys != g.numintkeys
                       || g.minIntkey < 1
                       || (g.numintkeys > 0 && g.minIntkey > cfg.arrayThresh)
                       || (g.numintkeys > 0 && g.maxIntkey > cfg.arrayFrac * g.numkeys))))
  {
    var m, s := t.entries, t.entries.Keys;
    assert |m| == g.numkeys;
    SubsetSize(Integers(s), s);
    if g.numkeys != g.numintkeys {
      var k :| k in s && k !in Integers(s);
    } else {
      assert forall k | k in m :: k in Integers(s);
      if g.minIntkey < 1 {
        var k :| k in s && IntOf(k) == Some(g.minIntkey);
      }
      if g.numkeys > 0 {
        var k :| k in s;
        assert g.minIntkey <= IntOf(k).value <= g.maxIntkey;
        assert HasInt(s, g.minIntkey) by { if g.minIntkey == LUA_MAXINTEGER { assert IntOf(k) == Some(g.minIntkey); } }
      }
    }
  }

  lemma SubsetSize(a: set<Key>, b: set<Key>)
    requires a <= b
    ensures |a| == |b| <==> a == b
  {
    assert b == a + (b - a);
    assert b - a == {} ==> a == b;
  }

  lemma CountOne(seen: set<Key>, key: Key, numkeys: int, numintkeys: int, minIntkey: int, maxIntkey: int)
    requires Counted(seen, numkeys, numintkeys, minIntkey, maxIntkey) && key !in seen
    requires IntOf(key).Some? ==> IntOf(key).value <= LUA_MAXINTEGER
    ensures var v := IntOf(key);
            Counted(seen + {key}, numkeys + 1, if v.Some? then numintkeys + 1 else numintkeys,
                    if v.Some? && v.value < minIntkey then v.value else minIntkey,
                    if v.Some? && v.value > maxIntkey then v.value else maxIntkey)
  {
    IntegersOne(seen, key);
    assert key in seen + {key};
  }

  // ---- The explicit stack ----

  /** One container on the stack: its key list, the last array key dealt with (0 before the first; unused
      for objects), and the number, from 1, of the next key. */
  datatype Frame = Frame(table: Lua, isArray: bool, keys: seq<Key>, prevkey: int, index: nat)

  /** The frame's keys are its table's, and the ones before `index` have been dealt with. */
  ghost predicate Shaped(f: Frame, cfg: Config) {
    && f.table.LTable? && WellFormed(f.table, cfg) && KOther !in f.table.entries
    && f.isArray == !IsObject(f.table, cfg)
    && Lists(f.keys, set k | k in f.table.entries && Serialised(f.table, k, cfg))
    && (f.isArray ==> Ascending(f.keys))
    && 1 <= f.index <= |f.keys| + 1
    && (f.isArray ==> f.prevkey == if f.index == 1 then 0 else f.keys[f.index - 2].i)
  }

  /** The container being built holds what the first n of the frame's keys stand for. */
  ghost predicate Built(f: Frame, p: Partial, n: nat, cfg: Config)
    requires Shaped(f, cfg) && n <= |f.keys|
  {
    var m := f.table.entries;
    && (forall i {:trigger f.keys[i]} | 0 <= i < n :: f.keys[i] in m && Serialisable(m[f.keys[i]], cfg))
    && if f.isArray then
         p.PArr? && forall j | 0 <= j < |p.elems| :: p.elems[j] == ElemAt(f.table, j + 1, cfg)
       else
         && p.PObj?
         && (forall s | s in p.members :: exists i :: 0 <= i < n && TextOf(f.keys[i]) == s)
         && forall i {:trigger f.keys[i]} | 0 <= i < n ::
              f.keys[i] in m && TextOf(f.keys[i]) in p.members
              && p.members[TextOf(f.keys[i])] == ToJson(m[f.keys[i]], cfg)
  }

  /** The innermost frame: everything before `index` has been built. */
  ghost predicate Ready(f: Frame, p: Partial, cfg: Config) {
    && Shaped(f, cfg) && Built(f, p, f.index - 1, cfg)
    && if f.isArray then p.PArr? && |p.elems| == f.prevkey else p.PObj? && p.key.None?
  }

  /** A frame whose last key's value is being built further in. */
  ghost predicate Waiting(f: Frame, p: Partial, cfg: Config) {
    && Shaped(f, cfg) && f.index >= 2 && Built(f, p, f.index - 2, cfg)
    && if f.isArray then p.PArr? && |p.elems| == f.prevkey - 1
         else p.PObj? && p.key == Some(TextOf(f.keys[f.index - 2]))
  }

  /** The value being built further in. */
  ghost function Current(f: Frame): Lua
    requires f.table.LTable? && 2 <= f.index <= |f.keys| + 1 && f.keys[f.index - 2] in f.table.entries
  {
    f.table.entries[f.keys[f.index - 2]]
  }

  lemma KeyIn(f: Frame, i: nat, cfg: Config)
    requires Shaped(f, cfg) && i < |f.keys|
    ensures f.keys[i] in f.table.entries && Serialised(f.table, f.keys[i], cfg)
  {
    assert f.keys[i] in f.keys;
  }

  /** A frame that has just been pushed. */
  lemma StartReady(f: Frame, p: Partial, cfg: Config)
    requires Shaped(f, cfg) && f.index == 1
    requires p == if f.isArray then PArr([]) else PObj(map[], None)
    ensures Ready(f, p, cfg)
  {}

  /** Adding the value of the key at hand. */
  lemma AddReady(f: Frame, p: Partial, v: Json, cfg: Config)
    requires Waiting(f, p, cfg) && f.keys[f.index - 2] in f.table.entries
    requires Serialisable(Current(f), cfg) && v == ToJson(Current(f), cfg)
    ensures Takes(p) && Ready(f, Add(p, v), cfg)
  {
    KeyIn(f, f.index - 2, cfg);
    if f.isArray { AddElement(f, p, v, cfg); } else { AddMember(f, p, v, cfg); }
  }

  lemma AddElement(f: Frame, p: Partial, v: Json, cfg: Config)
    requires Waiting(f, p, cfg) && f.isArray && f.keys[f.index - 2] in f.table.entries
    requires Serialisable(Current(f), cfg) && v == ToJson(Current(f), cfg)
    ensures Built(f, Add(p, v), f.index - 1, cfg)
  {
    var n, p' := f.index - 1, Add(p, v);
    forall j | 0 <= j < |p'.elems| ensures p'.elems[j] == ElemAt(f.table, j + 1, cfg) {
      if j == |p.elems| { assert f.keys[n - 1] == KInt(j + 1); }
    }
  }

  lemma AddMember(f: Frame, p: Partial, v: Json, cfg: Config)
    requires Waiting(f, p, cfg) && !f.isArray && f.keys[f.index - 2] in f.table.entries
    requires Serialisable(Current(f), cfg) && v == ToJson(Current(f), cfg)
    ensures Built(f, Add(p, v), f.index - 1, cfg)
  {
    var n, m, p' := f.index - 1, f.table.entries, Add(p, v);
    forall i {:trigger f.keys[i]} | 0 <= i < n
      ensures f.keys[i] in m && TextOf(f.keys[i]) in p'.members
              && p'.members[TextOf(f.keys[i])] == ToJson(m[f.keys[i]], cfg)
    {
      OtherText(f, i, n - 1, cfg);
    }
    forall s | s in p'.members ensures exists i :: 0 <= i < n && TextOf(f.keys[i]) == s {
      if s == TextOf(f.keys[n - 1]) { assert 0 <= n - 1 < n; }
    }
  }

  lemma OtherText(f: Frame, i: nat, j: nat, cfg: Config)
    requires Shaped(f, cfg) && !f.isArray && i <= j < |f.keys|
    ensures f.keys[i] in f.table.entries && (i < j ==> TextOf(f.keys[i]) != TextOf(f.keys[j]))
  {
    KeyIn(f, i, cfg);
    KeyIn(f, j, cfg);
  }

  /** Between one array key and the next there are no entries. */
  lemma GapIsEmpty(f: Frame, i: int, cfg: Config)
    requires Shaped(f, cfg) && f.isArray && f.index <= |f.keys| && f.prevkey < i < f.keys[f.index - 1].i
    ensures KInt(i) !in f.table.entries
  {
    forall j | 0 <= j < |f.keys| ensures f.keys[j] != KInt(i) {
      assert f.index >= 2 && j < f.index - 2 ==> f.keys[j].i < f.keys[f.index - 2].i;
      assert j >= f.index - 1 ==> j == f.index - 1 || f.keys[j].i > f.keys[f.index - 1].i;
    }
    assert KInt(i) in f.table.entries ==> KInt(i) in f.keys;
  }

  /** When all keys have been dealt with, what has been built is what the table stands for. */
  lemma DoneIsJson(f: Frame, p: Partial, cfg: Config)
    requires Ready(f, p, cfg) && f.index == |f.keys| + 1
    ensures Serialisable(f.table, cfg) && Finished(p) == ToJson(f.table, cfg)
  {
    var t, m := f.table, f.table.entries;
    forall k | k in m && Serialised(t, k, cfg) ensures Serialisable(m[k], cfg) {
      assert k in f.keys;
      var i :| 0 <= i < |f.keys| && f.keys[i] == k;
    }
    if f.isArray {
      TopIsLast(f, cfg);
      assert p.elems == ToJson(t, cfg).elems;
    } else {
      ObjectIsJson(f, p, cfg);
    }
  }

  lemma TopIsLast(f: Frame, cfg: Config)
    requires Shaped(f, cfg) && f.isArray && f.index == |f.keys| + 1
    ensures Top(f.table) == f.prevkey
  {
    var t, n := f.table, Top(f.table);
    if |f.keys| > 0 { KeyIn(f, |f.keys| - 1, cfg); }
    if n > 0 {
      assert KInt(n) in f.keys;
      var i :| 0 <= i < |f.keys| && f.keys[i] == KInt(n);
    }
  }

  lemma ObjectIsJson(f: Frame, p: Partial, cfg: Config)
    requires Ready(f, p, cfg) && f.index == |f.keys| + 1 && !f.isArray
    ensures p.members == ToJson(f.table, cfg).members
  {
    var t, m, want := f.table, f.table.entries, ToJson(f.table, cfg).members;
    forall k | k in m ensures TextOf(k) in p.members && p.members[TextOf(k)] == ToJson(m[k], cfg) {
      assert k in f.keys;
      var i :| 0 <= i < |f.keys| && f.keys[i] == k;
    }
    forall s ensures s in p.members <==> s in want {
      if s in p.members {
        var i :| 0 <= i < |f.keys| && TextOf(f.keys[i]) == s;
        KeyIn(f, i, cfg);
      }
    }
    forall s | s in want ensures p.members[s] == want[s] {
      var k := KeyFor(t, s);
    }
  }

  // ---- Termination: what is still to be visited ----

  ghost function Weight(v: Lua): nat
    decreases v, 0
  {
    if v.LTable? then 2 + SumSet(v, v.entries.Keys) else 1
  }

  ghost function SumSet(t: Lua, s: set<Key>): nat
    requires t.LTable? && s <= t.entries.Keys
    decreases t, 0, |s|
  {
    if s == {} then 0 else var k :| k in s; Weight(t.entries[k]) + SumSet(t, s - {k})
  }

  ghost function SumSeq(t: Lua, keys: seq<Key>): nat
    requires t.LTable?
    decreases |keys|
  {
    if keys == [] then 0
    else (if keys[0] in t.entries then Weight(t.entries[keys[0]]) else 0) + SumSeq(t, keys[1..])
  }

  lemma {:induction false} SumSetTake(t: Lua, s: set<Key>, k: Key)
    requires t.LTable? && s <= t.entries.Keys && k in s
    ensures SumSet(t, s) == Weight(t.entries[k]) + SumSet(t, s - {k})
    decreases |s|
  {
    var j :| j in s && SumSet(t, s) == Weight(t.entries[j]) + SumSet(t, s - {j});
    if j != k {
      SumSetTake(t, s - {j}, k);
      SumSetTake(t, s - {k}, j);
      assert s - {j} - {k} == s - {k} - {j};
    }
  }

  lemma {:induction false} SumBound(t: Lua, keys: seq<Key>, s: set<Key>)
    requires t.LTable? && s <= t.entries.Keys
    requires (forall k | k in keys :: k in s) && forall i, j | 0 <= i < j < |keys| :: keys[i] != keys[j]
    ensures SumSeq(t, keys) <= SumSet(t, s)
    decreases |keys|
  {
    if keys != [] {
      SumSetTake(t, s, keys[0]);
      SumBound(t, keys[1..], s - {keys[0]});
    }
  }

  ghost function Left(f: Frame): nat {
    if f.table.LTable? && 1 <= f.index <= |f.keys| then 1 + SumSeq(f.table, f.keys[f.index - 1..]) else 1
  }

  ghost function LeftAll(stack: seq<Frame>): nat
    decreases |stack|
  {
    if stack == [] then 0 else LeftAll(stack[..|stack| - 1]) + Left(stack[|stack| - 1])
  }

  // ---- The serialiser ----

  datatype Scalar = IsScalar(j: Json) | IsContainer | Unfit

  /** A null value is written as null whatever it is; otherwise the value's own type decides. */
  function ToScalar(v: Lua, cfg: Config): (r: Scalar)
    requires WellFormed(v, cfg)
    ensures r.IsScalar? ==> Serialisable(v, cfg) && r.j == ToJson(v, cfg)
    ensures r.IsContainer? <==> v.LTable?
    ensures r.Unfit? ==> !Serialisable(v, cfg)
  {
    if IsNull(v, cfg) then IsScalar(JNull)
    else match v
      case LNil => IsScalar(JNull)
      case LBool(b) => IsScalar(JBool(b))
      case LNum(n) => IsScalar(JNum(n))
      case LStr(s) => IsScalar(JStr(s))
      case LDatum(j) => IsScalar(j)
      case LTable(_, _) => IsContainer
      case _ => Unfit
  }

  /** The stack of frames and the containers being built agree: each frame waits for the value that the
      next one holds, the innermost one for `child`, and all this started with v. */
  ghost predicate Below(v: Lua, stack: seq<Frame>, open: seq<Partial>, child: Lua, cfg: Config)
    decreases |stack|
  {
    && |stack| == |open|
    && if stack == [] then child == v
       else
         var top := |stack| - 1;
         && Waiting(stack[top], open[top], cfg) && stack[top].keys[stack[top].index - 2] in stack[top].table.entries
         && Current(stack[top]) == child
         && Below(v, stack[..top], open[..top], stack[top].table, cfg)
  }

  /** The innermost frame is ready for its next key. */
  ghost predicate InStep(v: Lua, stack: seq<Frame>, p: Parse, cfg: Config) {
    && |stack| == |p.open| && (stack == [] <==> p.done.Some?)
    && (stack != [] ==>
          var top := |stack| - 1;
          Ready(stack[top], p.open[top], cfg) && Below(v, stack[..top], p.open[..top], stack[top].table, cfg))
  }

  /** Whatever is being built is part of what can be serialised, if the whole can. */
  lemma {:induction false} PartSerialisable(v: Lua, stack: seq<Frame>, open: seq<Partial>, child: Lua, cfg: Config)
    requires Below(v, stack, open, child, cfg) && Serialisable(v, cfg)
    ensures Serialisable(child, cfg)
    decreases |stack|
  {
    if stack != [] {
      var top := |stack| - 1;
      PartSerialisable(v, stack[..top], open[..top], stack[top].table, cfg);
      KeyIn(stack[top], stack[top].index - 2, cfg);
    }
  }

  /** Writes a null for each place between the last key of an array and the next one. */
  method FillGap(f: Frame, p: Parse, cfg: Config) returns (p': Parse)
    requires |p.open| > 0 && p.done.None? && Ready(f, p.open[|p.open| - 1], cfg) && f.index <= |f.keys| && f.isArray
    requires f.keys[f.index - 1] in f.table.entries && f.keys[f.index - 1].KInt?
    ensures |p'.open| == |p.open| && p'.done.None? && p'.open[..|p.open| - 1] == p.open[..|p.open| - 1]
    ensures var last := p'.open[|p.open| - 1];
            last.PArr? && |last.elems| == f.keys[f.index - 1].i - 1 && Built(f, last, f.index - 1, cfg)
  {
    var top, key, prevkey := |p.open| - 1, f.keys[f.index - 1].i, f.prevkey + 1;
    assert f.index > 1 ==> f.keys[f.index - 2].i < key;
    p' := p;
    while prevkey != key
      invariant f.prevkey < prevkey <= key
      invariant |p'.open| == |p.open| && p'.done.None? && p'.open[..top] == p.open[..top]
      invariant p'.open[top].PArr? && |p'.open[top].elems| == prevkey - 1 && Built(f, p'.open[top], f.index - 1, cfg)
      decreases key - prevkey
    {
      GapIsEmpty(f, prevkey, cfg);
      p' := Push(p', Elem(JNull));
      prevkey := prevkey + 1;
    }
  }

  /** Moves on to the next key: writes the nulls of a gap, or the key's text. */
  method NextKey(f: Frame, p: Parse, cfg: Config) returns (f': Frame, p': Parse)
    requires |p.open| > 0 && p.done.None? && Ready(f, p.open[|p.open| - 1], cfg) && f.index <= |f.keys|
    ensures |p'.open| == |p.open| && p'.done.None? && p'.open[..|p.open| - 1] == p.open[..|p.open| - 1]
    ensures f' == f.(index := f.index + 1, prevkey := f'.prevkey) && Waiting(f', p'.open[|p.open| - 1], cfg)
    ensures f.keys[f.index - 1] in f.table.entries && Current(f') == f.table.entries[f.keys[f.index - 1]]
    ensures Serialised(f.table, f.keys[f.index - 1], cfg)
  {
    var top := |p.open| - 1;
    KeyIn(f, f.index - 1, cfg);
    f', p' := f.(index := f.index + 1), p;
    var k := f.keys[f.index - 1];
    if f.isArray {
      p' := FillGap(f, p, cfg);
      f' := f'.(prevkey := k.i);
    } else {
      p' := Push(p', JsonbValues.Key(TextOf(k)));
    }
  }

  lemma MoveOn(v: Lua, stack: seq<Frame>, p: Parse, f': Frame, p': Parse, cfg: Config)
    requires InStep(v, stack, p, cfg) && stack != []
    requires |p'.open| == |p.open| && p'.open[..|p.open| - 1] == p.open[..|p.open| - 1]
    requires f'.table == stack[|stack| - 1].table && Waiting(f', p'.open[|p.open| - 1], cfg)
    requires f'.keys[f'.index - 2] in f'.table.entries
    ensures Below(v, stack[|stack| - 1 := f'], p'.open, Current(f'), cfg)
  {
    var top, stack' := |stack| - 1, stack[|stack| - 1 := f'];
    assert stack'[..top] == stack[..top];
  }

  /** The frame that waits for a value takes it and is ready again. */
  lemma Completed(v: Lua, stack: seq<Frame>, open: seq<Partial>, c: Lua, cfg: Config)
    requires Below(v, stack, open, c, cfg) && stack != [] && WellFormed(c, cfg) && Serialisable(c, cfg)
    ensures var top := |stack| - 1;
            && Takes(open[top]) && open[top].PArr? == stack[top].isArray
            && Ready(stack[top], Add(open[top], ToJson(c, cfg)), cfg)
            && Below(v, stack[..top], open[..top], stack[top].table, cfg)
  {
    var top := |stack| - 1;
    AddReady(stack[top], open[top], ToJson(c, cfg), cfg);
  }

  /** A scalar value completes the key at hand. */
  lemma ScalarInStep(v: Lua, stack: seq<Frame>, p: Parse, c: Lua, cfg: Config)
    requires Below(v, stack, p.open, c, cfg) && stack != [] && p.done.None?
    requires WellFormed(c, cfg) && Serialisable(c, cfg)
    ensures var j := ToJson(c, cfg);
            var t := if stack[|stack| - 1].isArray then Elem(j) else Value(j);
            Legal(p, t) && InStep(v, stack, Push(p, t), cfg)
  {
    var top := |stack| - 1;
    Completed(v, stack, p.open, c, cfg);
    var t := if stack[top].isArray then Elem(ToJson(c, cfg)) else Value(ToJson(c, cfg));
    assert Push(p, t).open[..top] == p.open[..top];
  }

  /** A container value becomes the innermost frame. */
  lemma NestedInStep(v: Lua, stack: seq<Frame>, p: Parse, f: Frame, cfg: Config)
    requires Below(v, stack, p.open, f.table, cfg) && p.done.None?
    requires Shaped(f, cfg) && f.index == 1
    ensures var t := if f.isArray then BeginArray else BeginObject;
            Legal(p, t) && InStep(v, stack + [f], Push(p, t), cfg)
  {
    var t := if f.isArray then BeginArray else BeginObject;
    StartReady(f, Push(p, t).open[|stack|], cfg);
    assert (stack + [f])[..|stack|] == stack && Push(p, t).open[..|stack|] == p.open;
  }

  /** The innermost container is complete: it completes the key its parent waits with, or everything. */
  lemma CloseInStep(v: Lua, stack: seq<Frame>, p: Parse, cfg: Config)
    requires InStep(v, stack, p, cfg) && stack != [] && WellFormed(v, cfg)
    requires stack[|stack| - 1].index == |stack[|stack| - 1].keys| + 1
    ensures var t := if stack[|stack| - 1].isArray then EndArray else EndObject;
            && Legal(p, t) && InStep(v, stack[..|stack| - 1], Push(p, t), cfg)
            && (|stack| == 1 ==> Serialisable(v, cfg) && Push(p, t).done == Some(ToJson(v, cfg)))
  {
    var top, f := |stack| - 1, stack[|stack| - 1];
    var t := if f.isArray then EndArray else EndObject;
    DoneIsJson(f, p.open[top], cfg);
    if top > 0 {
      PopInStep(v, stack[..top], p.open[..top], f.table, p, t, cfg);
    }
  }

  lemma PopInStep(v: Lua, rest: seq<Frame>, open: seq<Partial>, c: Lua, p: Parse, t: Token, cfg: Config)
    requires Below(v, rest, open, c, cfg) && rest != [] && WellFormed(c, cfg) && Serialisable(c, cfg)
    requires |p.open| == |open| + 1 && p.open[..|open|] == open && p.done.None?
             && Finished(p.open[|open|]) == ToJson(c, cfg)
    requires if t.EndArray? then p.open[|open|].PArr?
             else t.EndObject? && p.open[|open|].PObj? && p.open[|open|].key.None?
    ensures Legal(p, t) && InStep(v, rest, Push(p, t), cfg)
  {
    Completed(v, rest, open, c, cfg);
    AddInStep(v, rest, open, ToJson(c, cfg), p, t, cfg);
  }

  lemma AddInStep(v: Lua, rest: seq<Frame>, open: seq<Partial>, j: Json, p: Parse, t: Token, cfg: Config)
    requires |rest| == |open| > 0 && Takes(open[|rest| - 1])
    requires Ready(rest[|rest| - 1], Add(open[|rest| - 1], j), cfg)
    requires Below(v, rest[..|rest| - 1], open[..|rest| - 1], rest[|rest| - 1].table, cfg)
    requires |p.open| == |open| + 1 && p.open[..|open|] == open && p.done.None? && Finished(p.open[|open|]) == j
    requires if t.EndArray? then p.open[|open|].PArr?
             else t.EndObject? && p.open[|open|].PObj? && p.open[|open|].key.None?
    ensures Legal(p, t) && InStep(v, rest, Push(p, t), cfg)
  {
    var top := |rest| - 1;
    assert open[top] == p.open[top] && p.open[..top] == open[..top];
    assert Legal(p, t);
    assert Push(p, t) == Parse(open[..top] + [Add(open[top], j)], None);
  }

  // What is left to visit shrinks with every step.

  lemma LeftMoved(stack: seq<Frame>, f': Frame, cfg: Config)
    requires stack != [] && Shaped(stack[|stack| - 1], cfg)
    requires var f := stack[|stack| - 1]; f.index <= |f.keys| && f' == f.(index := f.index + 1, prevkey := f'.prevkey)
    requires var f := stack[|stack| - 1]; f.keys[f.index - 1] in f.table.entries
    ensures LeftAll(stack[|stack| - 1 := f']) + Weight(Current(f')) == LeftAll(stack)
  {
    var top, f := |stack| - 1, stack[|stack| - 1];
    assert stack[top := f'][..top] == stack[..top];
    assert f.keys[f.index - 1..][1..] == f'.keys[f'.index - 1..];
  }

  lemma LeftEntered(stack: seq<Frame>, g: Frame, cfg: Config)
    requires Shaped(g, cfg) && g.index == 1
    ensures LeftAll(stack + [g]) < LeftAll(stack) + Weight(g.table)
  {
    assert g.keys[0..] == g.keys;
    SumBound(g.table, g.keys, g.table.entries.Keys);
    assert (stack + [g])[..|stack|] == stack;
  }

  /** The serialiser: builds exactly the document the value stands for, and fails exactly when there is
      something in it that cannot be serialised. */
  method ToSql(v: Lua, cfg: Config) returns (r: Result<Json, string>)
    requires WellFormed(v, cfg)
    ensures Serialisable(v, cfg) ==> r == Ok(ToJson(v, cfg))
    ensures !Serialisable(v, cfg) ==> r.Err?
    // Scalars are what they are, whatever the definition says; the null value goes before its own type.
    ensures !v.LTable? && cfg.nullValue == Some(v) ==> r == Ok(JNull)
    ensures !v.LTable? && cfg.nullValue != Some(v) ==>
              match v
              case LNil => r == Ok(JNull)
              case LBool(b) => r == Ok(JBool(b))
              case LNum(n) => r == Ok(JNum(n))
              case LStr(s) => r == Ok(JStr(s))
              case LDatum(j) => r == Ok(j)
              case _ => r.Err?
  {
    var scalar := ToScalar(v, cfg);
    if scalar.Unfit? { return Err("cannot serialize scalar value"); }
    if scalar.IsScalar? { return Ok(scalar.j); }
    var ok, stack, pstate := Enter(v, [], Parse([], None), v, cfg);
    if !ok { return Err("cannot serialize scalar value as key"); }
    while |stack| > 0
      invariant InStep(v, stack, pstate, cfg)
      invariant stack == [] ==> Serialisable(v, cfg) && pstate.done == Some(ToJson(v, cfg))
      decreases LeftAll(stack)
    {
      var top := |stack| - 1;
      var f := stack[top];
      if f.index > |f.keys| {
        CloseInStep(v, stack, pstate, cfg);
        pstate := Push(pstate, if f.isArray then EndArray else EndObject);
        stack := stack[..top];
      } else {
        ok, stack, pstate := Visit(v, stack, pstate, cfg);
        if !ok { return Err("cannot serialize value"); }
      }
    }
    r := Ok(pstate.done.value);
  }

  /** One turn of the loop with a key at hand: its value is written, or it becomes the innermost frame. */
  method Visit(ghost v: Lua, stack: seq<Frame>, p: Parse, cfg: Config) returns (ok: bool, stack': seq<Frame>, p': Parse)
    requires InStep(v, stack, p, cfg) && stack != [] && stack[|stack| - 1].index <= |stack[|stack| - 1].keys|
    ensures !ok ==> !Serialisable(v, cfg)
    ensures ok ==> InStep(v, stack', p', cfg) && stack' != [] && LeftAll(stack') < LeftAll(stack)
  {
    var val;
    stack', p', val := MoveToKey(v, stack, p, cfg);
    var scalar := ToScalar(val, cfg);
    if scalar.IsContainer? {
      ok, stack', p' := Enter(v, stack', p', val, cfg);
    } else if scalar.Unfit? {
      if Serialisable(v, cfg) { PartSerialisable(v, stack', p'.open, val, cfg); }
      ok := false;
    } else {
      ScalarInStep(v, stack', p', val, cfg);
      p' := Push(p', if stack'[|stack'| - 1].isArray then Elem(scalar.j) else Value(scalar.j));
      ok := true;
    }
  }

  /** Advances the innermost frame to its next key, and looks up the value there. */
  method MoveToKey(ghost v: Lua, stack: seq<Frame>, p: Parse, cfg: Config)
      returns (stack': seq<Frame>, p': Parse, val: Lua)
    requires InStep(v, stack, p, cfg) && stack != [] && stack[|stack| - 1].index <= |stack[|stack| - 1].keys|
    ensures stack' != [] && p'.done.None? && Below(v, stack', p'.open, val, cfg) && WellFormed(val, cfg)
    ensures LeftAll(stack') + Weight(val) == LeftAll(stack)
  {
    var top := |stack| - 1;
    var f := stack[top];
    var f';
    f', p' := NextKey(f, p, cfg);
    MoveOn(v, stack, p, f', p', cfg);
    LeftMoved(stack, f', cfg);
    stack', val := stack[top := f'], f.table.entries[f.keys[f.index - 1]];
  }

  /** Makes a container the innermost frame. */
  method Enter(ghost v: Lua, stack: seq<Frame>, p: Parse, val: Lua, cfg: Config)
      returns (ok: bool, stack': seq<Frame>, p': Parse)
    requires Below(v, stack, p.open, val, cfg) && p.done.None? && val.LTable? && WellFormed(val, cfg)
             && !IsNull(val, cfg)
    ensures !ok ==> !Serialisable(v, cfg)
    ensures ok ==> InStep(v, stack', p', cfg) && stack' != [] && LeftAll(stack') < LeftAll(stack) + Weight(val)
  {
    var g;
    stack', p' := stack, p;
    ok, g := NewFrame(val, cfg);
    if !ok {
      if Serialisable(v, cfg) { PartSerialisable(v, stack, p.open, val, cfg); }
      return;
    }
    NestedInStep(v, stack, p, g, cfg);
    LeftEntered(stack, g, cfg);
    stack' := stack + [g];
    p' := Push(p, if g.isArray then BeginArray else BeginObject);
  }

  method NewFrame(t: Lua, cfg: Config) returns (ok: bool, g: Frame)
    requires t.LTable? && WellFormed(t, cfg) && !IsNull(t, cfg)
    ensures !ok ==> !Serialisable(t, cfg)
    ensures ok ==> Shaped(g, cfg) && g.index == 1 && g.table == t
  {
    var isArray, keys;
    ok, isArray, keys := PushKeys(t, cfg);
    g := Frame(t, isArray, keys, 0, 1);
  }
}
