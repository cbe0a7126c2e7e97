/** The method slots of the classes the code generator lays out: a class's slots must begin with its
    parent's, or a call through the parent's interface would reach the wrong method. */
module ClassLayout {
  import opened Bytes

  /** A method; methods are the same slot when their names are. */
  datatype Method = Method(name: ByteSeq, unbound: bool, internal: bool, isFactory: bool, impl: nat)

  type Methods = seq<Method>

  predicate Takes(m: Method) { !m.unbound && !m.internal }

  /** Where a method of that name is. */
  function Find(ms: Methods, name: ByteSeq): (r: Option<nat>)
    ensures r.Some? ==> r.value < |ms| && ms[r.value].name == name
    ensures r.Some? ==> forall i :: 0 <= i < r.value ==> ms[i].name != name
    ensures r.None? ==> forall i :: 0 <= i < |ms| ==> ms[i].name != name
  {
    if ms == [] then None
    else if ms[0].name == name then Some(0)
    else match Find(ms[1..], name)
      case None => None
      case Some(i) => Some(i + 1)
  }

  /** Adds a method unless its name is taken. */
  function AddUnique(ms: Methods, m: Method): Methods {
    if Find(ms, m.name).None? then ms + [m] else ms
  }

  /** Puts a method in the slot its name has, or in a new one. */
  function Place(ms: Methods, m: Method): Methods {
    match Find(ms, m.name)
    case None => ms + [m]
    case Some(i) => ms[i := m]
  }

  function AddAll(ms: Methods, more: Methods): Methods {
    if more == [] then ms else AddUnique(AddAll(ms, more[..|more| - 1]), more[|more| - 1])
  }

  function Inherit(ms: Methods, parent: Methods): Methods {
    if parent == [] then ms
    else
      var r := Inherit(ms, parent[..|parent| - 1]);
      var m := parent[|parent| - 1];
      if Takes(m) then AddUnique(r, m) else r
  }

  function Override(ms: Methods, own: Methods): Methods {
    if own == [] then ms
    else
      var r := Override(ms, own[..|own| - 1]);
      var m := own[|own| - 1];
      if Takes(m) then Place(r, m) else r
  }

  /** The parent's slots, then the class's own methods over them or after them. */
  function Fill(parent: Methods, own: Methods): Methods { Override(Inherit([], parent), own) }

  // ----- Slots

  function Names(ms: Methods): (r: seq<ByteSeq>)
    ensures |r| == |ms|
  {
    seq(|ms|, i requires 0 <= i < |ms| => ms[i].name)
  }

  predicate Unique(ms: Methods) { forall i, j :: 0 <= i < j < |ms| ==> ms[i].name != ms[j].name }

  /** The methods of `ms` that can have slots. */
  function Bound(ms: Methods): Methods {
    if ms == [] then []
    else Bound(ms[..|ms| - 1]) + (if Takes(ms[|ms| - 1]) then [ms[|ms| - 1]] else [])
  }

  lemma PlaceKeeps(ms: Methods, m: Method)
    requires Unique(ms)
    ensures Unique(Place(ms, m)) && Names(ms) <= Names(Place(ms, m))
    ensures Unique(AddUnique(ms, m)) && ms <= AddUnique(ms, m)
  {
    hide Find;
    var p := Place(ms, m);
    assert forall i :: 0 <= i < |ms| ==> p[i].name == ms[i].name;
    assert Names(p)[..|ms|] == Names(ms);
  }

  lemma {:induction false} OverrideKeeps(ms: Methods, own: Methods)
    requires Unique(ms)
    ensures Unique(Override(ms, own)) && Names(ms) <= Names(Override(ms, own))
    decreases |own|
  {
    hide Place, Names, Unique;
    if own != [] {
      var rest := own[..|own| - 1];
      OverrideKeeps(ms, rest);
      PlaceKeeps(Override(ms, rest), own[|own| - 1]);
    }
  }

  lemma {:induction false} AddAllKeeps(ms: Methods, more: Methods)
    requires Unique(ms)
    ensures Unique(AddAll(ms, more)) && ms <= AddAll(ms, more)
    decreases |more|
  {
    hide AddUnique, Unique;
    if more != [] {
      var rest := more[..|more| - 1];
      AddAllKeeps(ms, rest);
      PlaceKeeps(AddAll(ms, rest), more[|more| - 1]);
    }
  }

  predicate Lacks(ms: Methods, name: ByteSeq) { forall i :: 0 <= i < |ms| ==> ms[i].name != name }

  lemma {:induction false} BoundLacks(ms: Methods, name: ByteSeq)
    requires Lacks(ms, name)
    ensures Lacks(Bound(ms), name)
  {
    if ms != [] {
      BoundLacks(ms[..|ms| - 1], name);
    }
  }

  lemma UniqueLast(ms: Methods, m: Method)
    requires Unique(ms) && Lacks(ms, m.name)
    ensures Unique(ms + [m]) && AddUnique(ms, m) == ms + [m]
  {
    hide Find;
  }

  lemma {:induction false} InheritIs(parent: Methods)
    requires Unique(parent)
    ensures Inherit([], parent) == Bound(parent) && Unique(Bound(parent))
  {
    if parent != [] {
      hide Unique, Lacks, AddUnique;
      var rest, m := parent[..|parent| - 1], parent[|parent| - 1];
      UniqueRest(parent);
      InheritIs(rest);
      BoundLacks(rest, m.name);
      UniqueLast(Bound(rest), m);
      assert Bound(rest) + [] == Bound(rest);
    }
  }

  lemma UniqueRest(ms: Methods)
    requires ms != [] && Unique(ms)
    ensures Unique(ms[..|ms| - 1]) && Lacks(ms[..|ms| - 1], ms[|ms| - 1].name)
  {
  }

  /** A class's slots have different names, and begin with its parent's, in the same order. */
  lemma FillExtends(parent: Methods, own: Methods)
    requires Unique(parent)
    ensures Unique(Fill(parent, own)) && Names(Bound(parent)) <= Names(Fill(parent, own))
  {
    hide Override, Inherit, Bound;
    InheritIs(parent);
    OverrideKeeps(Bound(parent), own);
  }

  // ----- Regrouping

  function Factories(ms: Methods): Methods {
    if ms == [] then []
    else Factories(ms[..|ms| - 1]) + (if ms[|ms| - 1].isFactory then [ms[|ms| - 1]] else [])
  }

  function Others(ms: Methods): Methods {
    if ms == [] then []
    else Others(ms[..|ms| - 1]) + (if ms[|ms| - 1].isFactory then [] else [ms[|ms| - 1]])
  }

  /** The methods with the internal ones added: factories first, then the initialiser, and the
      destructor last. */
  function Finished(ms: Methods, init: seq<Method>, destroy: seq<Method>): Methods {
    Factories(ms) + init + Others(ms) + destroy
  }

  lemma {:induction false} BoundConcat(a: Methods, b: Methods)
    ensures Bound(a + b) == Bound(a) + Bound(b)
    decreases |b|
  {
    if b == [] {
      assert a + b == a;
    } else {
      assert (a + b)[..|a + b| - 1] == a + b[..|b| - 1];
      BoundConcat(a, b[..|b| - 1]);
    }
  }

  lemma BoundOne(m: Method)
    ensures Bound([m]) == if Takes(m) then [m] else []
  {
    assert [m][..0] == [];
  }

  lemma NoneBound()
    ensures Bound([]) == []
  {
  }

  /** Factories are never bound. */
  predicate FactoriesUnbound(ms: Methods) { forall i :: 0 <= i < |ms| && ms[i].isFactory ==> ms[i].unbound }

  lemma {:induction false} GroupsBound(ms: Methods)
    requires FactoriesUnbound(ms)
    ensures Bound(Factories(ms)) == [] && Bound(Others(ms)) == Bound(ms)
  {
    hide Bound;
    if ms != [] {
      var rest, m := ms[..|ms| - 1], ms[|ms| - 1];
      GroupsBound(rest);
      BoundOne(m);
      BoundConcat(Factories(rest), [m]);
      BoundConcat(Others(rest), [m]);
      BoundConcat(rest, [m]);
      assert rest + [m] == ms;
      assert Others(rest) + [] == Others(rest) && Factories(rest) + [] == Factories(rest);
    } else {
      NoneBound();
    }
  }

  lemma {:induction false} InternalBound(ms: Methods)
    requires forall i :: 0 <= i < |ms| ==> ms[i].internal
    ensures Bound(ms) == []
  {
    if ms != [] {
      InternalBound(ms[..|ms| - 1]);
    }
  }

  lemma FinishedBound(ms: Methods, init: seq<Method>, destroy: seq<Method>)
    requires FactoriesUnbound(ms)
    requires (forall i :: 0 <= i < |init| ==> init[i].internal) && (forall i :: 0 <= i < |destroy| ==> destroy[i].internal)
    ensures Bound(Finished(ms, init, destroy)) == Bound(ms)
  {
    hide Bound, Factories, Others;
    GroupsBound(ms);
    InternalBound(init);
    InternalBound(destroy);
    BoundConcat(Factories(ms) + init + Others(ms), destroy);
    BoundConcat(Factories(ms) + init, Others(ms));
    BoundConcat(Factories(ms), init);
  }

  lemma {:induction false} OverrideBound(ms: Methods, own: Methods)
    ensures Override(ms, own) == Override(ms, Bound(own))
    decreases |own|
  {
    hide Place;
    if own != [] {
      var rest, m := own[..|own| - 1], own[|own| - 1];
      OverrideBound(ms, rest);
      if Takes(m) {
        assert Bound(own)[..|Bound(rest)|] == Bound(rest);
      } else {
        assert Bound(own) == Bound(rest);
      }
    }
  }

  // ----- A whole hierarchy

  /** A class as it stands when its interface is made: its methods, the internal ones it is to get,
      and, for an abstract class, the methods of the interfaces it leaves to its children. */
  datatype Class = Class(parent: Option<Class>, methods: Methods, init: seq<Method>, destroy: seq<Method>,
                         abstract_: bool, interfaces: Methods)

  predicate AllTake(ms: Methods) { forall i :: 0 <= i < |ms| ==> Takes(ms[i]) }

  /** What a parsed class is: factories are unbound, internal methods internal, and what an interface
      declares can have a slot. */
  predicate ClassOk(c: Class) {
    && FactoriesUnbound(c.methods)
    && (forall i :: 0 <= i < |c.init| ==> c.init[i].internal)
    && (forall i :: 0 <= i < |c.destroy| ==> c.destroy[i].internal)
    && AllTake(c.interfaces)
    && (c.parent.Some? ==> ClassOk(c.parent.value))
  }

  function ParentAll(c: Class): Methods
    decreases c, 0
  {
    if c.parent.Some? then AllMethods(c.parent.value) else []
  }

  /** The methods of the class's own interface, and of those of its ancestors, eldest first. */
  function ClassIfs(c: Class): Methods
    decreases c, 1
  {
    (if c.parent.Some? then ClassIfs(c.parent.value) else []) + Fill(ParentAll(c), c.methods)
  }

  /** The slots of the class's interface, made before the methods are regrouped. */
  function InterfaceSlots(c: Class): Methods {
    var own := Fill(ParentAll(c), c.methods);
    if c.abstract_ then AddAll(own, c.interfaces) else own
  }

  /** The slots recomputed afterwards, the class now implementing its own interface too. */
  function AllMethods(c: Class): Methods
    decreases c, 2
  {
    var own := Fill(ParentAll(c), Finished(c.methods, c.init, c.destroy));
    if c.abstract_ then AddAll(AddAll(own, c.interfaces), ClassIfs(c)) else own
  }

  predicate HasName(ms: Methods, name: ByteSeq) { exists j :: 0 <= j < |ms| && ms[j].name == name }

  predicate Covers(ms: Methods, names: Methods) {
    forall i :: 0 <= i < |names| ==> HasName(ms, names[i].name)
  }

  lemma {:induction false} AddNothing(ms: Methods, more: Methods)
    requires Covers(ms, more)
    ensures AddAll(ms, more) == ms
    decreases |more|
  {
    if more != [] {
      var rest, m := more[..|more| - 1], more[|more| - 1];
      assert forall i :: 0 <= i < |rest| ==> rest[i] == more[i];
      AddNothing(ms, rest);
      assert HasName(ms, m.name);
    }
  }

  lemma {:induction false} FilledIsBound(ms: Methods, own: Methods)
    requires forall i :: 0 <= i < |ms| ==> Takes(ms[i])
    ensures forall i :: 0 <= i < |Override(ms, own)| ==> Takes(Override(ms, own)[i])
    decreases |own|
  {
    hide Find;
    if own != [] {
      FilledIsBound(ms, own[..|own| - 1]);
    }
  }

  lemma {:induction false} BoundTakes(ms: Methods)
    ensures forall i :: 0 <= i < |Bound(ms)| ==> Takes(Bound(ms)[i])
    ensures (forall i :: 0 <= i < |ms| ==> Takes(ms[i])) ==> Bound(ms) == ms
  {
    if ms != [] {
      BoundTakes(ms[..|ms| - 1]);
    }
  }

  lemma FillTakes(parent: Methods, own: Methods)
    requires Unique(parent)
    ensures forall i :: 0 <= i < |Fill(parent, own)| ==> Takes(Fill(parent, own)[i])
  {
    hide Override, Inherit, Bound;
    InheritIs(parent);
    BoundTakes(parent);
    FilledIsBound(Bound(parent), own);
  }

  lemma CoversMore(ms: Methods, more: Methods, names: Methods)
    requires Covers(ms, names) && Names(ms) <= Names(more)
    ensures Covers(more, names)
  {
    forall i | 0 <= i < |names|
      ensures HasName(more, names[i].name)
    {
      assert HasName(ms, names[i].name);
      var j :| 0 <= j < |ms| && ms[j].name == names[i].name;
      assert Names(ms)[j] == Names(more)[j];
      assert more[j].name == names[i].name;
    }
  }

  /** For every class of every hierarchy: no two slots have one name; the slots the parent has come
      first, in its order; what is recomputed after regrouping is what the interface was given; and
      every interface slot of an ancestor is among them. */
  lemma {:induction false} LayoutSound(c: Class)
    requires ClassOk(c)
    ensures Unique(AllMethods(c)) && AllMethods(c) == InterfaceSlots(c)
    ensures AllTake(AllMethods(c)) && Names(ParentAll(c)) <= Names(AllMethods(c))
    ensures Covers(AllMethods(c), ClassIfs(c))
    decreases c
  {
    hide Override, Inherit, Bound, Covers, Finished, Names, Unique, Fill, AddAll, Takes;
    if c.parent.Some? {
      LayoutSound(c.parent.value);
    } else {
      NoSlots();
    }
    var p := ParentAll(c);
    BoundTakes(p);
    SameFill(p, c);
    var own := Fill(p, c.methods);
    FillExtends(p, c.methods);
    FillTakes(p, c.methods);
    OwnCovered(c);
    if c.abstract_ {
      var wide := AddAll(own, c.interfaces);
      AddAllKeeps(own, c.interfaces);
      PrefixNames(own, wide);
      CoversMore(own, wide, ClassIfs(c));
      AddNothing(wide, ClassIfs(c));
      AddAllTakes(own, c.interfaces);
    }
  }

  lemma NoSlots()
    ensures Unique([]) && Bound([]) == []
  {
  }

  lemma SameFill(p: Methods, c: Class)
    requires ClassOk(c)
    ensures Fill(p, Finished(c.methods, c.init, c.destroy)) == Fill(p, c.methods)
  {
    hide Override, Bound, Finished, Inherit;
    FinishedBound(c.methods, c.init, c.destroy);
    OverrideBound(Inherit([], p), c.methods);
    OverrideBound(Inherit([], p), Finished(c.methods, c.init, c.destroy));
  }

  /** The interfaces of a class and its ancestors hold no name its own slots do not. */
  lemma OwnCovered(c: Class)
    requires c.parent.Some? ==> Covers(AllMethods(c.parent.value), ClassIfs(c.parent.value))
    requires Names(ParentAll(c)) <= Names(Fill(ParentAll(c), c.methods))
    ensures Covers(Fill(ParentAll(c), c.methods), ClassIfs(c))
  {
    hide Fill, Bound, AllMethods;
    var own := Fill(ParentAll(c), c.methods);
    if c.parent.Some? {
      CoversMore(ParentAll(c), own, ClassIfs(c.parent.value));
    }
    forall i | 0 <= i < |ClassIfs(c)|
      ensures HasName(own, ClassIfs(c)[i].name)
    {
      var n := |ClassIfs(c)| - |own|;
      if i >= n {
        assert own[i - n].name == ClassIfs(c)[i].name;
      } else {
        assert ClassIfs(c)[i] == ClassIfs(c.parent.value)[i];
      }
    }
  }

  lemma PrefixNames(a: Methods, b: Methods)
    requires a <= b
    ensures Names(a) <= Names(b)
  {
  }

  lemma {:induction false} AddAllTakes(ms: Methods, more: Methods)
    requires AllTake(ms) && AllTake(more)
    ensures AllTake(AddAll(ms, more))
    decreases |more|
  {
    hide Find;
    if more != [] {
      AddAllTakes(ms, more[..|more| - 1]);
    }
  }

  // ----- As it runs

  method FindMethod(ms: Methods, name: ByteSeq) returns (idx: Option<nat>)
    ensures idx == Find(ms, name)
  {
    for i := 0 to |ms|
      invariant forall k :: 0 <= k < i ==> ms[k].name != name
    {
      if ms[i].name == name {
        return Some(i);
      }
    }
    return None;
  }

  method FillMethods(parent: Methods, own: Methods) returns (ms: Methods)
    ensures ms == Fill(parent, own)
  {
    hide Find;
    ms := [];
    for i := 0 to |parent|
      invariant ms == Inherit([], parent[..i])
    {
      assert parent[..i + 1][..i] == parent[..i];
      var m := parent[i];
      if Takes(m) {
        var idx := FindMethod(ms, m.name);
        if idx.None? {
          ms := ms + [m];
        }
      }
    }
    assert parent[..|parent|] == parent;
    for i := 0 to |own|
      invariant ms == Override(Inherit([], parent), own[..i])
    {
      assert own[..i + 1][..i] == own[..i];
      var m := own[i];
      if Takes(m) {
        var idx := FindMethod(ms, m.name);
        if idx.None? {
          ms := ms + [m];
        } else {
          ghost var was := ms;
          ms := ms[..idx.value] + ms[idx.value + 1..];
          ms := ms[..idx.value] + [m] + ms[idx.value..];
          assert ms == was[idx.value := m];
        }
      }
    }
    assert own[..|own|] == own;
  }

  /** Moves the factories to the front, keeping their order and that of the rest. */
  method RegroupFactories(methods: Methods) returns (ms: Methods, nextFactory: nat)
    ensures ms == Factories(methods) + Others(methods) && nextFactory == |Factories(methods)|
  {
    hide Factories, Others;
    ms, nextFactory := methods, 0;
    ghost var fs, os: Methods := [], [];
    NoGroups(methods);
    for i := 0 to |methods|
      invariant fs == Factories(methods[..i]) && os == Others(methods[..i])
      invariant nextFactory == |fs| && |fs| + |os| == i && ms == fs + os + methods[i..]
    {
      Grouped(methods, i);
      ghost var rest := methods[i + 1..];
      assert methods[i..] == [methods[i]] + rest;
      Moves(fs, os, methods[i], rest);
      var m := ms[i];
      if m.isFactory {
        if i != nextFactory {
          ms := MoveFactory(ms, i, nextFactory, fs, os, rest);
        }
        nextFactory := nextFactory + 1;
        fs := fs + [m];
      } else {
        os := os + [m];
      }
      assert ms == fs + os + rest;
    }
    assert methods[..|methods|] == methods && methods[|methods|..] == [];
  }

  method MoveFactory(methods: Methods, i: nat, next: nat, ghost fs: Methods, ghost os: Methods, ghost rest: Methods)
    returns (ms: Methods)
    requires next == |fs| && i == |fs| + |os| < |methods|
    requires methods == fs + os + ([methods[i]] + rest)
    ensures ms == fs + [methods[i]] + os + rest
  {
    Moves(fs, os, methods[i], rest);
    ms := methods[..i] + methods[i + 1..];
    ms := ms[..next] + [methods[i]] + ms[next..];
  }

  lemma NoGroups(ms: Methods)
    ensures Factories(ms[..0]) == [] && Others(ms[..0]) == [] && ms[0..] == ms
  {
  }

  /** Taking a method from behind one group and putting it behind the other. */
  lemma Moves(fs: Methods, os: Methods, m: Method, rest: Methods)
    ensures var ms := fs + os + ([m] + rest);
            var i := |fs| + |os|;
            && ms[i] == m && ms[..i] + ms[i + 1..] == fs + os + rest
            && (fs + os + rest)[..|fs|] + [m] + (fs + os + rest)[|fs|..] == fs + [m] + os + rest
            && (os == [] ==> ms == fs + [m] + os + rest)
            && ms == fs + (os + [m]) + rest
  {
  }

  lemma {:induction false} Grouped(ms: Methods, i: nat)
    requires i < |ms|
    ensures |Factories(ms[..i])| + |Others(ms[..i])| == i && |Factories(ms[..i + 1])| + |Others(ms[..i + 1])| == i + 1
    ensures Factories(ms[..i + 1]) == Factories(ms[..i]) + (if ms[i].isFactory then [ms[i]] else [])
    ensures Others(ms[..i + 1]) == Others(ms[..i]) + (if ms[i].isFactory then [] else [ms[i]])
    decreases i
  {
    assert ms[..i + 1][..i] == ms[..i];
    if i > 0 {
      Grouped(ms, i - 1);
    }
  }
}
