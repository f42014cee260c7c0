/** Cached type information for types nested through the columns of row types, revalidated against the
catalog when it is next wanted. */
module TypeCache {
  import opened Options

  type Oid = nat

  /** What is compared of a type besides its columns' own information: everything flat, and for a row
      type the type of each column that is not dropped. */
  datatype TypeDef = TypeDef(details: int, columns: seq<Option<Oid>>)

  /** A type in the catalog; transforms may change without the type being changed. */
  datatype Entry = Entry(def: TypeDef, transforms: int)

  /** A type together with the types of its columns, all the way down. */
  datatype Tree = Tree(def: TypeDef, kids: seq<Option<Tree>>)

  /** Columns have types of their own, and no row type contains itself. */
  ghost predicate Ranked(catalog: map<Oid, Entry>, rank: map<Oid, nat>) {
    && catalog.Keys == rank.Keys
    && forall oid, i | oid in catalog && 0 <= i < |catalog[oid].def.columns| && catalog[oid].def.columns[i].Some? ::
         var c := catalog[oid].def.columns[i].value; c in catalog && rank[c] < rank[oid]
  }

  /** The whole tree of a type, from the catalog. */
  ghost function CatTree(catalog: map<Oid, Entry>, rank: map<Oid, nat>, oid: Oid): Tree
    requires Ranked(catalog, rank) && oid in catalog
    decreases rank[oid]
  {
    var def := catalog[oid].def;
    Tree(def, seq(|def.columns|, i requires 0 <= i < |def.columns| =>
      if def.columns[i].None? then None else Some(CatTree(catalog, rank, def.columns[i].value))))
  }

  class TypeInfo {
    const oid: Oid
    const def: TypeDef
    const attrtypes: seq<TypeInfo?>
    var transforms: int
    var revalidate: bool
    var modified: bool
    var obsolete: bool
    ghost const tree: Tree

    constructor (oid: Oid, entry: Entry, attrtypes: seq<TypeInfo?>)
      ensures this.oid == oid && def == entry.def && this.attrtypes == attrtypes && transforms == entry.transforms
      ensures !revalidate && !modified && !obsolete
      ensures tree == Tree(def, seq(|attrtypes|, i requires 0 <= i < |attrtypes| =>
                        if attrtypes[i] == null then None else Some(attrtypes[i].tree)))
    {
      this.oid, this.def, this.attrtypes, transforms := oid, entry.def, attrtypes, entry.transforms;
      revalidate, modified, obsolete := false, false, false;
      tree := Tree(entry.def, seq(|attrtypes|, i requires 0 <= i < |attrtypes| =>
                if attrtypes[i] == null then None else Some(attrtypes[i].tree)));
    }

    /** The i-th column's information. */
    predicate Column(i: int, older c: TypeInfo) { 0 <= i < |attrtypes| && attrtypes[i] == c }
  }

  /** The object's columns are those of its definition, and its tree is put together from theirs. */
  ghost predicate Built(t: TypeInfo) {
    && t.tree.def == t.def && |t.tree.kids| == |t.attrtypes| == |t.def.columns|
    && (forall i | 0 <= i < |t.attrtypes| :: t.attrtypes[i] == null <==> t.def.columns[i].None?)
    && (forall i | 0 <= i < |t.attrtypes| :: t.attrtypes[i] == null <==> t.tree.kids[i].None?)
    && forall i, c | t.Column(i, c) :: t.def.columns[i] == Some(c.oid) && t.tree.kids[i] == Some(c.tree)
  }

  /** All of a set of objects are built, from objects of the set. */
  ghost predicate Closed(all: set<TypeInfo>) {
    forall t | t in all :: Built(t) && forall i, c | t.Column(i, c) :: c in all
  }

  /** The object is the cached one, its definition is the catalog's, and so it is all the way down. */
  ghost predicate Intact(t: TypeInfo, types: map<Oid, TypeInfo>, catalog: map<Oid, Entry>)
    decreases t.tree
  {
    && t.oid in types && types[t.oid] == t
    && t.oid in catalog && catalog[t.oid].def == t.def
    && Built(t)
    && forall i, c | t.Column(i, c) :: Intact(c, types, catalog)
  }

  /** An intact object shows what the catalog says. */
  lemma {:induction false} IntactFresh(t: TypeInfo, types: map<Oid, TypeInfo>,
          catalog: map<Oid, Entry>, rank: map<Oid, nat>)
    requires Ranked(catalog, rank) && Intact(t, types, catalog)
    ensures t.tree == CatTree(catalog, rank, t.oid)
    decreases t.tree
  {
    var want := CatTree(catalog, rank, t.oid);
    forall i | 0 <= i < |t.attrtypes| ensures t.tree.kids[i] == want.kids[i] {
      if t.attrtypes[i] != null {
        var c: TypeInfo := t.attrtypes[i];
        assert t.Column(i, c);
        IntactFresh(c, types, catalog, rank);
      }
    }
    assert t.tree.kids == want.kids;
  }

  /** Changes of the catalog outside an object's tree leave it intact. */
  lemma {:induction false} IntactElsewhere(t: TypeInfo, types: map<Oid, TypeInfo>,
                                           catalog: map<Oid, Entry>, catalog': map<Oid, Entry>)
    requires Intact(t, types, catalog)
    requires forall oid | InTree(t, oid) && oid in catalog :: oid in catalog' && catalog'[oid].def == catalog[oid].def
    ensures Intact(t, types, catalog')
    decreases t.tree
  {
    assert InTree(t, t.oid);
    forall i, c | t.Column(i, c) ensures Intact(c, types, catalog') {
      forall oid | InTree(c, oid) ensures InTree(t, oid) {}
      IntactElsewhere(c, types, catalog, catalog');
    }
  }

  /** The types that make up an object's tree. */
  ghost predicate InTree(t: TypeInfo, oid: Oid)
    decreases t.tree
  {
    t.oid == oid || (Built(t) && exists i, c :: t.Column(i, c) && InTree(c, oid))
  }

  /** Replacing or removing a cache entry that is not intact makes no older object intact or otherwise. */
  lemma {:induction false} ReplaceKeeps(t: TypeInfo, types: map<Oid, TypeInfo>, types': map<Oid, TypeInfo>, oid: Oid,
                                        catalog: map<Oid, Entry>, all: set<TypeInfo>)
    requires Closed(all) && t in all
    requires types' - {oid} == types - {oid}
    requires oid in types ==> !Intact(types[oid], types, catalog)
    requires oid in types' ==> types'[oid] !in all
    ensures Intact(t, types, catalog) <==> Intact(t, types', catalog)
    decreases t.tree
  {
    forall o | o != oid ensures (o in types <==> o in types') && (o in types ==> types'[o] == types[o]) {
      assert o in types <==> o in types - {oid};
      assert o in types' <==> o in types' - {oid};
    }
    forall i, c | t.Column(i, c) ensures Intact(c, types, catalog) <==> Intact(c, types', catalog) {
      ReplaceKeeps(c, types, types', oid, catalog, all);
    }
  }

  class Cache {
    var catalog: map<Oid, Entry>
    var types: map<Oid, TypeInfo>
    ghost var rank: map<Oid, nat>
    ghost var all: set<TypeInfo>

    constructor ()
      ensures Valid() && catalog == map[] && types == map[]
    {
      catalog, types, rank, all := map[], map[], map[], {};
    }

    /** An object that needs no revalidation agrees with the catalog, and so do its columns'. */
    ghost predicate Level(t: TypeInfo)
      reads this, t, types.Values
    {
      && t.oid in catalog && catalog[t.oid] == Entry(t.def, t.transforms)
      && forall i, c | t.Column(i, c) :: c.oid in types && types[c.oid] == c && !types[c.oid].revalidate
    }

    ghost predicate Valid()
      reads this, types.Values
    {
      && Ranked(catalog, rank) && Closed(all)
      && forall oid | oid in types :: Sound(oid)
    }

    ghost predicate Sound(oid: Oid)
      requires oid in types
      reads this, types.Values
    {
      && types[oid] in all && types[oid].oid == oid && !types[oid].modified && !types[oid].obsolete
      && (types[oid].revalidate || Level(types[oid]))
    }

    lemma {:induction false} LevelIntact(t: TypeInfo)
      requires Valid() && t.oid in types && types[t.oid] == t && !t.revalidate
      ensures Intact(t, types, catalog)
      decreases t.tree
    {
      forall i, c | t.Column(i, c) ensures Intact(c, types, catalog) {
        LevelIntact(c);
      }
    }

    /** The catalog changes, and every entry is flagged. */
    method Invalidate(catalog': map<Oid, Entry>, ghost rank': map<Oid, nat>)
      requires Valid() && Ranked(catalog', rank')
      modifies this`catalog, this`rank, types.Values
      ensures Valid() && catalog == catalog' && rank == rank' && types == old(types) && all == old(all)
      ensures forall oid | oid in types :: types[oid].revalidate
    {
      catalog, rank := catalog', rank';
      forall t | t in types.Values {
        t.revalidate := true;
      }
    }

    ghost function Now(): Moment
      reads this, types.Values, all
    {
      Moment(all, types, map oid | oid in types :: types[oid].revalidate,
             set t | t in all && t.modified, set t | t in all && t.obsolete)
    }

    /** How far down the columns of a type go. */
    ghost function Bound(oid: Oid): nat
      reads this
    {
      if oid in rank then rank[oid] else 0
    }

    /** Whether existing values are unaffected: the flat parts are equal, and the columns' objects the same. */
    method TypeinfoEq(obj1: TypeInfo, obj2: TypeInfo) returns (match': bool)
      requires Built(obj1) && Built(obj2)
      ensures match' <==> obj1.def == obj2.def && obj1.attrtypes == obj2.attrtypes
    {
      if obj1.def != obj2.def { return false; }
      match' := true;
      var i := 0;
      while match' && i < |obj1.attrtypes|
        invariant 0 <= i <= |obj1.attrtypes|
        invariant match' ==> obj1.attrtypes[..i] == obj2.attrtypes[..i]
        invariant !match' ==> obj1.attrtypes != obj2.attrtypes
      {
        if obj1.attrtypes[i] != obj2.attrtypes[i] { match' := false; }
        i := i + 1;
      }
    }

    /** An object that has just been made for a type. */
    ghost predicate New(oid: Oid, nobj: TypeInfo)
      reads this, nobj, types.Values
    {
      && nobj.oid == oid && Built(nobj) && Level(nobj) && nobj !in all
      && !nobj.revalidate && !nobj.modified && !nobj.obsolete
    }

    /** It is the same as the old one exactly if that is intact. */
    lemma SameIfIntact(obj: TypeInfo, nobj: TypeInfo)
      requires Valid() && obj.oid in types && types[obj.oid] == obj && New(obj.oid, nobj)
      ensures obj.def == nobj.def && obj.attrtypes == nobj.attrtypes <==> Intact(obj, types, catalog)
    {
      assert Sound(obj.oid);
      if obj.def == nobj.def && obj.attrtypes == nobj.attrtypes {
        forall i, c | obj.Column(i, c) ensures Intact(c, types, catalog) {
          assert nobj.Column(i, c);
          LevelIntact(c);
        }
      }
      if Intact(obj, types, catalog) {
        forall i | 0 <= i < |obj.attrtypes| ensures obj.attrtypes[i] == nobj.attrtypes[i] {
          assert obj.attrtypes[i] == null <==> nobj.attrtypes[i] == null;
          if obj.attrtypes[i] != null {
            var c: TypeInfo, d: TypeInfo := obj.attrtypes[i], nobj.attrtypes[i];
            assert obj.Column(i, c) && nobj.Column(i, d);
            assert c.oid == d.oid && Intact(c, types, catalog);
          }
        }
      }
    }

    /** Decides between the old object and the new one. */
    method Settle(oid: Oid, obj: TypeInfo?, nobj: TypeInfo?) returns (r: TypeInfo?)
      requires Valid()
      requires obj == (if oid in types then types[oid] else null) && (obj != null ==> obj.revalidate)
      requires if nobj == null then oid !in catalog else New(oid, nobj)
      modifies this`types, this`all, if obj == null then {} else {obj}
      ensures catalog == old(catalog) && rank == old(rank)
      ensures Valid() && Kept(old(Now()), Now(), catalog) && SameFrom(old(Now()), Now(), rank, 0, {oid})
      ensures r == if obj != null && nobj != null && Intact(obj, old(types), catalog) then obj else nobj
      ensures if r == null then oid !in types else oid in types && types[oid] == r && !r.revalidate
      ensures obj != null && r != obj ==> if oid in catalog then obj.modified else obj.obsolete
      ensures all == if nobj != null && r == nobj then old(all) + {nobj} else old(all)
    {
      if obj != null && nobj != null {
        SameIfIntact(obj, nobj);
        var same := TypeinfoEq(obj, nobj);
        if same {
          Revalidate(obj, nobj);
          return obj;
        }
      }
      Replace(oid, obj, nobj);
      r := nobj;
    }

    /** The old object is kept, and is valid again. */
    method Revalidate(obj: TypeInfo, nobj: TypeInfo)
      requires Valid() && obj.oid in types && types[obj.oid] == obj && obj.revalidate && New(obj.oid, nobj)
      requires obj.def == nobj.def && obj.attrtypes == nobj.attrtypes
      modifies obj`transforms, obj`revalidate
      ensures catalog == old(catalog) && rank == old(rank)
      ensures Valid() && !obj.revalidate
    {
      obj.transforms := nobj.transforms;
      obj.revalidate := false;
      forall i, c | obj.Column(i, c) ensures c.oid in types && types[c.oid] == c && !types[c.oid].revalidate {
        assert nobj.Column(i, c);
      }
    }

    /** The old object is retired, and the new one takes its place. */
    method Replace(oid: Oid, obj: TypeInfo?, nobj: TypeInfo?)
      requires Valid()
      requires obj == (if oid in types then types[oid] else null)
               && (obj != null ==> obj.revalidate && !Intact(obj, types, catalog))
      requires if nobj == null then oid !in catalog else New(oid, nobj)
      modifies this`types, this`all, if obj == null then {} else {obj}
      ensures catalog == old(catalog) && rank == old(rank)
      ensures Valid() && types == if nobj == null then old(types) - {oid} else old(types)[oid := nobj]
      ensures all == if nobj == null then old(all) else old(all) + {nobj}
      ensures obj != null ==> if oid in catalog then obj.modified else obj.obsolete
      ensures Kept(old(Now()), Now(), catalog) && SameFrom(old(Now()), Now(), rank, 0, {oid})
      ensures nobj != null ==> !nobj.revalidate
    {
      ghost var was := Now();
      assert obj != null ==> Sound(oid);
      if nobj != null { NewClosed(oid, nobj); }
      if obj != null { Retire(oid, obj, nobj != null); }
      Install(oid, nobj);
      ReplaceKept(was, Now(), oid, nobj, catalog);
    }

    lemma NewClosed(oid: Oid, nobj: TypeInfo)
      requires Valid() && New(oid, nobj)
      ensures Closed(all + {nobj})
    {
      forall i, c | nobj.Column(i, c) ensures c in all { assert Sound(c.oid); }
    }

    /** All entries but one are sound, and none that is settled has that one for a column. */
    ghost predicate SoundBut(oid: Oid)
      reads this, types.Values
    {
      && Ranked(catalog, rank) && Closed(all)
      && forall o | o in types && o != oid ::
           Sound(o) && (!types[o].revalidate ==> forall i, c | types[o].Column(i, c) :: c.oid != oid)
    }

    method Retire(oid: Oid, obj: TypeInfo, replaced: bool)
      requires Valid() && oid in types && types[oid] == obj && obj.revalidate
      modifies obj`modified, obj`obsolete, obj`revalidate
      ensures catalog == old(catalog) && rank == old(rank)
      ensures SoundBut(oid) && if replaced then obj.modified else obj.obsolete
    {
      assert forall o | o in types && o != oid :: types[o].oid == o && types[o] != obj by {
        assert forall o | o in types :: Sound(o);
        assert Sound(oid);
      }
      if replaced { obj.modified := true; } else { obj.obsolete := true; }
      obj.revalidate := false;
    }

    method Install(oid: Oid, nobj: TypeInfo?)
      requires SoundBut(oid) && (nobj != null ==> New(oid, nobj) && Closed(all + {nobj}))
      modifies this`types, this`all
      ensures catalog == old(catalog) && rank == old(rank)
      ensures Valid() && types == if nobj == null then old(types) - {oid} else old(types)[oid := nobj]
      ensures all == if nobj == null then old(all) else old(all) + {nobj}
    {
      types := if nobj == null then types - {oid} else types[oid := nobj];
      all := if nobj == null then all else all + {nobj};
    }

    /** The information of a type, as the catalog has it now; null if there is no such type. It is the
        object cached before exactly if that one is intact; otherwise a new one, and the old one is
        retired. */
    method Lookup(oid: Oid) returns (r: TypeInfo?)
      requires Valid()
      modifies this`types, this`all, types.Values
      ensures catalog == old(catalog) && rank == old(rank)
      ensures Valid() && Kept(old(Now()), Now(), catalog) && SameFrom(old(Now()), Now(), rank, Bound(oid), {oid})
      ensures r == null <==> oid !in catalog
      ensures r == null ==> oid !in types
      ensures r != null ==> oid in types && types[oid] == r && !r.revalidate && r.oid == oid
      ensures r != null ==> Intact(r, types, catalog)
      ensures r != null ==> r.tree == CatTree(catalog, rank, oid) && r.transforms == catalog[oid].transforms
      ensures r != null ==> (r in old(all) <==> oid in old(types) && Intact(old(types)[oid], old(types), catalog))
      ensures r != null && r in old(all) ==> r == old(types)[oid]
      ensures oid in old(types) && r != old(types)[oid] ==>
                if oid in catalog then old(types)[oid].modified else old(types)[oid].obsolete
      ensures forall t | t in all && t !in old(all) :: fresh(t)
      decreases Bound(oid), 3
    {
      var obj: TypeInfo? := if oid in types then types[oid] else null;
      assert obj != null ==> Sound(oid);
      if obj != null && !obj.revalidate {
        LevelIntact(obj);
        IntactFresh(obj, types, catalog, rank);
        return obj;
      }
      ghost var was, rk, bound := Now(), rank, Bound(oid);
      var nobj, made := NewTypeInfo(oid);
      SameAt(was, Now(), rk, oid);
      r := SettleSince(oid, obj, nobj, was);
      forall t | t in all && t !in old(all) ensures t in made {}
      if r != null {
        assert Sound(oid);
        LevelIntact(r);
        IntactFresh(r, types, catalog, rank);
      }
    }

    /** Settling, after the columns' types have been looked up since an earlier moment. */
    method SettleSince(oid: Oid, obj: TypeInfo?, nobj: TypeInfo?, ghost was: Moment) returns (r: TypeInfo?)
      requires Valid() && Kept(was, Now(), catalog) && SameFrom(was, Now(), rank, Bound(oid), {})
      requires obj == (if oid in types then types[oid] else null) && (obj != null ==> obj.revalidate && obj in was.all)
      requires if nobj == null then oid !in catalog else oid in catalog && New(oid, nobj)
      modifies this`types, this`all, if obj == null then {} else {obj}
      ensures catalog == old(catalog) && rank == old(rank)
      ensures Valid() && Kept(was, Now(), catalog) && SameFrom(was, Now(), rank, Bound(oid), {oid})
      ensures if r == null then oid !in catalog else oid in catalog && oid in types && types[oid] == r && !r.revalidate
      ensures r == null ==> oid !in types
      ensures r != null ==> if obj != null && Intact(obj, was.types, catalog) then r == obj else r !in was.all
      ensures forall t | t in all :: t in old(all) || t == nobj
    {
      ghost var mid, cat, rk, bound := Now(), catalog, rank, Bound(oid);
      r := Settle(oid, obj, nobj);
      ghost var now := Now();
      assert Kept(mid, now, cat) && SameFrom(mid, now, rk, 0, {oid});
      KeptTrans(was, mid, now, cat);
      SameTrans(was, mid, now, rk, bound, {oid});
    }

    /** A new object for a type, not yet cached, from the current objects of its columns' types. */
    method NewTypeInfo(oid: Oid) returns (nobj: TypeInfo?, ghost made: set<TypeInfo>)
      requires Valid()
      modifies this`types, this`all, types.Values
      ensures catalog == old(catalog) && rank == old(rank)
      ensures Valid() && Kept(old(Now()), Now(), catalog) && SameFrom(old(Now()), Now(), rank, Bound(oid), {})
      ensures if nobj == null then oid !in catalog else oid in catalog && New(oid, nobj) && nobj in made
      ensures all <= old(all) + made && forall t | t in made :: fresh(t)
      decreases Bound(oid), 1
    {
      if oid !in catalog { return null, {}; }
      var columns := catalog[oid].def.columns;
      var attrtypes := LookupColumns(oid, columns);
      ghost var now := Now();
      nobj := MakeTypeInfo(oid, columns, attrtypes);
      made := (now.all - old(all)) + {nobj};
      assert Now() == now;
    }

    method MakeTypeInfo(oid: Oid, columns: seq<Option<Oid>>, attrtypes: seq<TypeInfo?>) returns (nobj: TypeInfo)
      requires Valid() && oid in catalog && columns == catalog[oid].def.columns && Found(Now(), columns, attrtypes)
      ensures fresh(nobj) && New(oid, nobj)
    {
      nobj := new TypeInfo(oid, catalog[oid], attrtypes);
      assert nobj !in all && Found(Now(), columns, nobj.attrtypes);
    }

    /** The current objects of a row type's columns. */
    method LookupColumns(oid: Oid, columns: seq<Option<Oid>>) returns (attrtypes: seq<TypeInfo?>)
      requires Valid() && oid in catalog && columns == catalog[oid].def.columns
      modifies this`types, this`all, types.Values
      ensures catalog == old(catalog) && rank == old(rank)
      ensures Valid() && Kept(old(Now()), Now(), catalog) && SameFrom(old(Now()), Now(), rank, Bound(oid), {})
      ensures Found(Now(), columns, attrtypes)
      ensures forall t | t in all && t !in old(all) :: fresh(t)
      decreases Bound(oid), 0, 1
    {
      attrtypes := [];
      ghost var was, cat, bound := Now(), catalog, rank[oid];
      for i := 0 to |columns|
        invariant catalog == cat && rank == old(rank)
        invariant Valid() && Kept(was, Now(), cat) && SameFrom(was, Now(), rank, bound, {})
        invariant fresh(all - was.all)
        invariant Found(Now(), columns[..i], attrtypes)
      {
        ghost var before := all;
        attrtypes := LookupColumn(columns, i, attrtypes, was, bound);
        assert all - was.all <= (all - before) + (before - was.all);
      }
      assert columns[..|columns|] == columns;
    }

    /** One more column; a dropped one has no type information. */
    method LookupColumn(columns: seq<Option<Oid>>, i: nat, attrtypes: seq<TypeInfo?>,
            ghost was: Moment, ghost bound: nat)
        returns (attrtypes': seq<TypeInfo?>)
      requires Valid() && i < |columns|
               && (columns[i].Some? ==> columns[i].value in catalog && rank[columns[i].value] < bound)
      requires Kept(was, Now(), catalog) && SameFrom(was, Now(), rank, bound, {})
               && Found(Now(), columns[..i], attrtypes)
      modifies this`types, this`all, types.Values
      ensures catalog == old(catalog) && rank == old(rank)
      ensures Valid() && Kept(was, Now(), catalog) && SameFrom(was, Now(), rank, bound, {})
      ensures Found(Now(), columns[..i + 1], attrtypes')
      ensures forall t | t in all && t !in old(all) :: fresh(t)
      decreases bound, 0, 0
    {
      ghost var mid, cat, rk := Now(), catalog, rank;
      assert columns[..i + 1] == columns[..i] + [columns[i]];
      if columns[i].None? {
        FoundOne(mid, columns[..i], attrtypes, columns[i], null);
        return attrtypes + [null];
      }
      var c := columns[i].value;
      assert Bound(c) == rk[c];
      var et := Lookup(c);
      ghost var now := Now();
      assert FoundIn(now, Some(c), et);
      assert Kept(mid, now, cat) && SameFrom(mid, now, rk, rk[c], {c});
      KeptTrans(was, mid, now, cat);
      SameBelow(was, mid, now, rk, c, bound);
      FoundKept(mid, now, cat, columns[..i], attrtypes);
      FoundOne(now, columns[..i], attrtypes, columns[i], et);
      attrtypes' := attrtypes + [et];
    }
  }

  /** The objects of a cache, the cached ones and which need revalidation, and the retired ones. */
  datatype Moment = Moment(all: set<TypeInfo>, types: map<Oid, TypeInfo>, flags: map<Oid, bool>,
                           modified: set<TypeInfo>, obsolete: set<TypeInfo>)

  /** What lookups keep: which of the objects are intact, and whatever needs no revalidation; and that
      what is no longer cached is retired for good. */
  ghost predicate Kept(was: Moment, now: Moment, catalog: map<Oid, Entry>) {
    && was.all <= now.all && was.modified <= now.modified && was.obsolete <= now.obsolete
    && (forall t {:trigger t in was.all} | t in was.all ::
         Intact(t, now.types, catalog) <==> Intact(t, was.types, catalog))
    && (forall o | o in was.types && o in was.flags && !was.flags[o] ::
          o in now.types && now.types[o] == was.types[o] && o in now.flags && !now.flags[o])
    && (forall o | o in now.types && now.types[o] in was.all :: o in was.types && was.types[o] == now.types[o])
    && forall o | o in was.types && !(o in now.types && now.types[o] == was.types[o]) ::
         was.types[o] in if o in catalog then now.modified else now.obsolete
  }

  lemma ReplaceKept(was: Moment, now: Moment, oid: Oid, nobj: TypeInfo?, catalog: map<Oid, Entry>)
    requires Closed(was.all) && was.flags.Keys == was.types.Keys && now.flags.Keys == now.types.Keys
    requires oid in was.types ==> was.flags[oid] && !Intact(was.types[oid], was.types, catalog)
    requires oid in was.types ==> was.types[oid] in if oid in catalog then now.modified else now.obsolete
    requires now.types == if nobj == null then was.types - {oid} else was.types[oid := nobj]
    requires now.all == if nobj == null then was.all else was.all + {nobj}
    requires nobj != null ==> nobj !in was.all
    requires was.modified <= now.modified && was.obsolete <= now.obsolete
    requires forall o | o in was.flags && o != oid :: o in now.flags && now.flags[o] == was.flags[o]
    ensures Kept(was, now, catalog) && forall rank :: SameFrom(was, now, rank, 0, {oid})
  {
    forall t | t in was.all ensures Intact(t, now.types, catalog) <==> Intact(t, was.types, catalog) {
      ReplaceKeeps(t, was.types, now.types, oid, catalog, was.all);
    }
  }

  lemma KeptTrans(a: Moment, b: Moment, c: Moment, catalog: map<Oid, Entry>)
    requires Kept(a, b, catalog) && Kept(b, c, catalog)
    ensures Kept(a, c, catalog)
  {
    forall o | o in c.types && c.types[o] in a.all ensures o in a.types && a.types[o] == c.types[o] {
      assert b.types[o] == c.types[o];
    }
  }

  /** What has been looked up for columns is cached and needs no revalidation. */
  ghost predicate Found(m: Moment, columns: seq<Option<Oid>>, attrtypes: seq<TypeInfo?>) {
    |columns| == |attrtypes| && forall i | 0 <= i < |columns| :: FoundIn(m, columns[i], attrtypes[i])
  }

  ghost predicate FoundIn(m: Moment, column: Option<Oid>, et: TypeInfo?) {
    if column.None? then et == null
    else var c := column.value; c in m.types && m.types[c] == et && c in m.flags && !m.flags[c]
  }

  lemma FoundKept(was: Moment, now: Moment, catalog: map<Oid, Entry>, columns: seq<Option<Oid>>,
          attrtypes: seq<TypeInfo?>)
    requires Kept(was, now, catalog) && Found(was, columns, attrtypes)
    ensures Found(now, columns, attrtypes)
  {}

  lemma FoundOne(m: Moment, columns: seq<Option<Oid>>, attrtypes: seq<TypeInfo?>, column: Option<Oid>, et: TypeInfo?)
    requires Found(m, columns, attrtypes) && FoundIn(m, column, et)
    ensures Found(m, columns + [column], attrtypes + [et])
  {}

  /** Types that are not below the bound have the same objects, with the same flags. */
  ghost predicate SameFrom(was: Moment, now: Moment, rank: map<Oid, nat>, bound: int, but: set<Oid>) {
    forall o | !(o in rank && rank[o] < bound) && o !in but ::
      && (o in was.types <==> o in now.types) && (o in was.types ==> now.types[o] == was.types[o])
      && (o in was.flags <==> o in now.flags) && (o in was.flags ==> now.flags[o] == was.flags[o])
  }

  lemma SameTrans(a: Moment, b: Moment, c: Moment, rank: map<Oid, nat>, bound: nat, but: set<Oid>)
    requires SameFrom(a, b, rank, bound, {}) && SameFrom(b, c, rank, 0, but)
    ensures SameFrom(a, c, rank, bound, but)
  {}

  lemma SameAt(a: Moment, b: Moment, rank: map<Oid, nat>, oid: Oid)
    requires SameFrom(a, b, rank, if oid in rank then rank[oid] else 0, {})
    ensures oid in a.types <==> oid in b.types
    ensures oid in a.types ==> b.types[oid] == a.types[oid]
    ensures oid in a.flags <==> oid in b.flags
    ensures oid in a.flags ==> b.flags[oid] == a.flags[oid]
  {}

  lemma SameBelow(a: Moment, b: Moment, c: Moment, rank: map<Oid, nat>, oid: Oid, bound: nat)
    requires SameFrom(a, b, rank, bound, {}) && oid in rank && rank[oid] < bound
             && SameFrom(b, c, rank, rank[oid], {oid})
    ensures SameFrom(a, c, rank, bound, {})
  {}

  /** That a type's tree is the same again is not enough: if a column's type changes, is looked up, and
      changes back, the row type gets a new object although its tree is what it was. */
  method ChangedBack(cache: Cache, col: Oid, row: Oid, before: map<Oid, Entry>,
          between: map<Oid, Entry>, rank: map<Oid, nat>)
      returns (p: TypeInfo?, q: TypeInfo?)
    requires cache.Valid() && Ranked(before, rank) && Ranked(between, rank)
    requires row in before && before[row].def.columns == [Some(col)] && col in before
    requires between.Keys == before.Keys && between[col].def != before[col].def
    modifies cache, cache.all
    ensures p != null && q != null && p.tree == q.tree && p != q && p.modified && !q.modified
  {
    assert before[row].def.columns[0] == Some(col);
    cache.Invalidate(before, rank);
    p := cache.Lookup(row);
    assert p.def == before[row].def;
    LookAgain(cache, col, row, p, between, rank);
    q := LookBack(cache, row, p, before, rank);
  }

  /** So the row gets a new object. */
  method LookBack(cache: Cache, row: Oid, p: TypeInfo, catalog: map<Oid, Entry>, rank: map<Oid, nat>)
      returns (q: TypeInfo?)
    requires cache.Valid() && p in cache.all && row in cache.types && cache.types[row] == p
    requires Ranked(catalog, rank) && row in catalog && forall catalog :: !Intact(p, cache.types, catalog)
    modifies cache, cache.all
    ensures q != null && q != p && p.modified && !q.modified && q.tree == CatTree(catalog, rank, row)
  {
    cache.Invalidate(catalog, rank);
    ghost var was := cache.Now();
    q := cache.Lookup(row);
    assert cache.Sound(row);
    assert p in cache.Now().modified;
  }

  /** A column's type is looked up while it is another: the row's object, still cached, is not intact any
      more, whatever the catalog says after that. */
  method LookAgain(cache: Cache, col: Oid, row: Oid, p: TypeInfo, between: map<Oid, Entry>, rank: map<Oid, nat>)
    requires cache.Valid() && Intact(p, cache.types, cache.catalog) && p.oid == row && p.def.columns == [Some(col)]
    requires Ranked(between, rank) && col in between && row in between && rank[col] < rank[row]
    requires col in cache.catalog && between[col].def != cache.catalog[col].def
    modifies cache, cache.all
    ensures cache.Valid() && p in cache.all && row in cache.types && cache.types[row] == p
    ensures forall catalog :: !Intact(p, cache.types, catalog)
    ensures fresh(cache.all - old(cache.all))
  {
    var c: TypeInfo := p.attrtypes[0];
    assert p.Column(0, c) && Intact(c, cache.types, cache.catalog);
    assert cache.Sound(col) && cache.Sound(row);
    cache.Invalidate(between, rank);
    assert !Intact(c, cache.types, cache.catalog);
    ghost var was := cache.Now();
    var d := cache.Lookup(col);
    SameAt2(was, cache.Now(), cache.rank, col, row);
    assert d != c;
  }

  lemma SameAt2(a: Moment, b: Moment, rank: map<Oid, nat>, col: Oid, row: Oid)
    requires col in rank && row in rank && rank[col] < rank[row] && SameFrom(a, b, rank, rank[col], {col})
    ensures row in a.types ==> row in b.types && b.types[row] == a.types[row]
  {}
}
