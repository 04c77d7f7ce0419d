/** The generated XML binding, read off its generator: a schema lists, for each class, the
    attributes, nested objects and collections in the order the code touches them, and
    `Save` and `Load` are toXml and fromXml of the class a schema describes. */
module XmlBinding {
  import opened Octets
  import opened XmlText

  // ---- XML trees ----

  type Attrs = seq<(string, string)>

  datatype Xml = Element(tag: string, attrs: Attrs, children: seq<Xml>) | Other(text: string)

  /** Attributes come back as C strings. */
  function Attribute(attrs: Attrs, name: string): Option<string> {
    if attrs == [] then None
    else if attrs[0].0 == name then Some(Cut(attrs[0].1))
    else Attribute(attrs[1..], name)
  }

  /** FirstChildElement followed by NextSiblingElement, with the same tag. */
  function ChildrenNamed(nodes: seq<Xml>, tag: string): seq<Xml> {
    if nodes == [] then []
    else (if nodes[0].Element? && nodes[0].tag == tag then [nodes[0]] else []) + ChildrenNamed(nodes[1..], tag)
  }

  function First(nodes: seq<Xml>): Option<Xml> {
    if nodes == [] then None else Some(nodes[0])
  }

  function FirstChildElement(nodes: seq<Xml>, tag: string): Option<Xml> {
    First(ChildrenNamed(nodes, tag))
  }

  // ---- Classes and objects ----

  /** A class: its element tag, whether an object without items is left out, and its members
      (those of a base class first, since a base writes into the element of the derived). */
  datatype Schema = Schema(tag: string, wrapper: bool, members: seq<Member>)

  datatype Member =
    | Attr(name: string, kind: Kind, default: Option<Prim>)
    | Child(schema: Schema)
    | Collection(schema: Schema)

  datatype Object = Object(valid: bool, fields: seq<Value>)

  datatype Value = PrimValue(prim: Prim) | ObjectValue(obj: Object) | ListValue(items: seq<Object>)

  predicate Typed(sc: Schema, o: Object)
    decreases sc
  {
    TypedAll(sc.members, o.fields)
  }

  predicate TypedAll(ms: seq<Member>, fs: seq<Value>)
    decreases ms
  {
    |ms| == |fs| && (ms == [] || (TypedValue(ms[0], fs[0]) && TypedAll(ms[1..], fs[1..])))
  }

  predicate TypedValue(m: Member, v: Value)
    decreases m
  {
    match m
    case Attr(_, kind, _) => v.PrimValue? && HasKind(kind, v.prim)
    case Child(sc) => v.ObjectValue? && Typed(sc, v.obj)
    case Collection(sc) => v.ListValue? && forall o <- v.items :: Typed(sc, o)
  }

  predicate Clash(a: Member, b: Member) {
    if a.Attr? then b.Attr? && a.name == b.name
    else !b.Attr? && a.schema.tag == b.schema.tag
  }

  predicate GoodDefault(m: Member) {
    m.Attr? && m.default.Some? ==>
      var p := m.default.value; HasKind(m.kind, p) && NulFreePrim(p) && ToText(m.kind, p).Some?
  }

  /** Attribute names and child tags of a class are distinct; a class that is left out when
      empty has collections only, and is never itself an item. */
  ghost predicate WellFormed(sc: Schema)
    decreases sc
  {
    && (forall i, j :: 0 <= i < j < |sc.members| ==> !Clash(sc.members[i], sc.members[j]))
    && (sc.wrapper ==> forall m <- sc.members :: m.Collection?)
    && WellFormedAll(sc.members)
  }

  ghost predicate WellFormedAll(ms: seq<Member>)
    decreases ms
  {
    ms == [] || (WellFormedMember(ms[0]) && WellFormedAll(ms[1..]))
  }

  ghost predicate WellFormedMember(m: Member)
    decreases m
  {
    match m
    case Attr(_, kind, _) => GoodKind(kind) && GoodDefault(m)
    case Child(sc) => WellFormed(sc)
    case Collection(sc) => WellFormed(sc) && !sc.wrapper
  }

  // ---- toXml ----

  datatype Content = Content(attrs: Attrs, nodes: seq<Xml>)

  predicate Omitted(sc: Schema, o: Object, ignoreValid: bool) {
    (sc.wrapper && forall f <- o.fields :: f.ListValue? ==> f.items == []) || (!ignoreValid && !o.valid)
  }

  /** The nodes appended to the parent; None where the code throws. */
  function Save(sc: Schema, o: Object, ignoreValid: bool): Option<seq<Xml>>
    requires Typed(sc, o)
    decreases sc, 0, 0
  {
    if Omitted(sc, o, ignoreValid) then Some([])
    else match SaveAll(sc.members, o.fields, ignoreValid)
      case None => None
      case Some(c) => Some([Element(sc.tag, c.attrs, c.nodes)])
  }

  function SaveAll(ms: seq<Member>, fs: seq<Value>, ignoreValid: bool): Option<Content>
    requires TypedAll(ms, fs)
    decreases ms
  {
    if ms == [] then Some(Content([], []))
    else
      var c, d := SaveMember(ms[0], fs[0], ignoreValid), SaveAll(ms[1..], fs[1..], ignoreValid);
      if c.None? || d.None? then None
      else Some(Content(c.value.attrs + d.value.attrs, c.value.nodes + d.value.nodes))
  }

  function SaveMember(m: Member, v: Value, ignoreValid: bool): Option<Content>
    requires TypedValue(m, v)
    decreases m
  {
    match m
    case Attr(name, kind, _) =>
      var t := ToText(kind, v.prim);
      if t.None? then None else Some(Content([(name, t.value)], []))
    case Child(sc) =>
      var xs := Save(sc, v.obj, ignoreValid);
      if xs.None? then None else Some(Content([], xs.value))
    case Collection(sc) =>
      var xs := SaveList(sc, v.items, ignoreValid);
      if xs.None? then None else Some(Content([], xs.value))
  }

  function SaveList(sc: Schema, os: seq<Object>, ignoreValid: bool): Option<seq<Xml>>
    requires forall o <- os :: Typed(sc, o)
    decreases sc, 1, |os|
  {
    if os == [] then Some([])
    else
      var x, xs := Save(sc, os[0], ignoreValid), SaveList(sc, os[1..], ignoreValid);
      if x.None? || xs.None? then None else Some(x.value + xs.value)
  }

  // ---- fromXml ----

  /** An object as its constructor leaves it: not valid, no items, whatever numbers. */
  predicate IsFresh(sc: Schema, o: Object)
    requires Typed(sc, o)
    decreases sc
  {
    !o.valid && FreshAll(sc.members, o.fields)
  }

  predicate FreshAll(ms: seq<Member>, fs: seq<Value>)
    requires TypedAll(ms, fs)
    decreases ms
  {
    ms == [] || (FreshValue(ms[0], fs[0]) && FreshAll(ms[1..], fs[1..]))
  }

  predicate FreshValue(m: Member, v: Value)
    requires TypedValue(m, v)
    decreases m
  {
    match m
    case Attr(_, _, _) => NulFreePrim(v.prim)
    case Child(sc) => IsFresh(sc, v.obj)
    case Collection(_) => v.items == []
  }

  /** What `new` yields for each class: any function to fresh objects. */
  type Maker = Schema -> Object

  ghost predicate Makes(mk: Maker) {
    forall sc :: Typed(sc, mk(sc)) && IsFresh(sc, mk(sc))
  }

  /** Loads into an existing object; an absent node changes nothing. None where the code throws. */
  ghost function Load(sc: Schema, node: Option<Xml>, into: Object, mk: Maker): (r: Option<Object>)
    requires Typed(sc, into) && Makes(mk)
    decreases sc, 0, 0
  {
    if node.None? then Some(into)
    else if !node.value.Element? then None
    else match LoadAll(sc.members, node.value, into.fields, mk)
      case None => None
      case Some(fs) => Some(Object(true, fs))
  }

  ghost function LoadAll(ms: seq<Member>, e: Xml, fs: seq<Value>, mk: Maker): (r: Option<seq<Value>>)
    requires TypedAll(ms, fs) && e.Element? && Makes(mk)
    decreases ms
  {
    if ms == [] then Some([])
    else
      var v, vs := LoadMember(ms[0], e, fs[0], mk), LoadAll(ms[1..], e, fs[1..], mk);
      if v.None? || vs.None? then None else Some([v.value] + vs.value)
  }

  ghost function LoadMember(m: Member, e: Xml, v: Value, mk: Maker): (r: Option<Value>)
    requires TypedValue(m, v) && e.Element? && Makes(mk)
    decreases m
  {
    match m
    case Attr(name, kind, default) =>
      var raw := Attribute(e.attrs, name);
      if raw.None? && default.Some? then Some(PrimValue(default.value))
      else
        var p := FromText(kind, raw);
        if p.None? then None else Some(PrimValue(p.value))
    case Child(sc) =>
      var o := Load(sc, FirstChildElement(e.children, sc.tag), v.obj, mk);
      if o.None? then None else Some(ObjectValue(o.value))
    case Collection(sc) =>
      var os := LoadList(sc, ChildrenNamed(e.children, sc.tag), mk);
      if os.None? then None else Some(ListValue(v.items + os.value))
  }

  ghost function LoadList(sc: Schema, nodes: seq<Xml>, mk: Maker): (r: Option<seq<Object>>)
    requires Makes(mk)
    decreases sc, 1, |nodes|
  {
    if nodes == [] then Some([])
    else
      var o, os := Load(sc, Some(nodes[0]), mk(sc), mk), LoadList(sc, nodes[1..], mk);
      if o.None? || os.None? then None else Some([o.value] + os.value)
  }

  // ---- When a load succeeds, and what it yields ----

  /** Every attribute present can be read, one that is absent is a string or has a default,
      and every child and item found loads in turn. */
  ghost predicate Loadable(sc: Schema, node: Option<Xml>)
    decreases sc, 0
  {
    node.Some? ==> node.value.Element? && LoadableAll(sc.members, node.value)
  }

  ghost predicate LoadableAll(ms: seq<Member>, e: Xml)
    requires e.Element?
    decreases ms
  {
    ms == [] || (LoadableMember(ms[0], e) && LoadableAll(ms[1..], e))
  }

  ghost predicate LoadableMember(m: Member, e: Xml)
    requires e.Element?
    decreases m
  {
    match m
    case Attr(name, kind, default) =>
      var raw := Attribute(e.attrs, name);
      if raw.None? then default.Some? || kind.StringKind? else FromText(kind, raw).Some?
    case Child(sc) => Loadable(sc, First(ChildrenNamed(e.children, sc.tag)))
    case Collection(sc) => AllLoadable(sc, ChildrenNamed(e.children, sc.tag))
  }

  ghost predicate AllLoadable(sc: Schema, nodes: seq<Xml>)
    decreases sc, 1
  {
    forall x <- nodes :: Loadable(sc, Some(x))
  }

  /** The object that loading makes of `into`: unchanged without a node; else valid, each
      attribute read or, where absent, its default or an empty string, each child as its
      own node makes it, and each collection longer by one new item for each node. */
  ghost predicate Yields(sc: Schema, node: Option<Xml>, into: Object, o: Object, mk: Maker)
    requires Typed(sc, into) && Makes(mk)
    decreases sc, 0
  {
    if node.None? then o == into
    else node.value.Element? && o.valid && YieldsAll(sc.members, node.value, into.fields, o.fields, mk)
  }

  ghost predicate YieldsAll(ms: seq<Member>, e: Xml, fs: seq<Value>, rs: seq<Value>, mk: Maker)
    requires TypedAll(ms, fs) && e.Element? && Makes(mk)
    decreases ms
  {
    && |rs| == |fs|
    && (ms == [] || (YieldsMember(ms[0], e, fs[0], rs[0], mk) && YieldsAll(ms[1..], e, fs[1..], rs[1..], mk)))
  }

  ghost predicate YieldsMember(m: Member, e: Xml, v: Value, r: Value, mk: Maker)
    requires TypedValue(m, v) && e.Element? && Makes(mk)
    decreases m
  {
    match m
    case Attr(name, kind, default) =>
      var raw := Attribute(e.attrs, name);
      && r.PrimValue?
      && (raw.None? && default.Some? ==> r.prim == default.value)
      && (raw.None? && default.None? ==> r.prim == StringVal(""))
      && (raw.Some? ==> FromText(kind, raw) == Some(r.prim))
    case Child(sc) => r.ObjectValue? && Yields(sc, First(ChildrenNamed(e.children, sc.tag)), v.obj, r.obj, mk)
    case Collection(sc) =>
      && r.ListValue? && v.items <= r.items
      && ItemsYield(sc, ChildrenNamed(e.children, sc.tag), r.items[|v.items|..], mk)
  }

  ghost predicate ItemsYield(sc: Schema, nodes: seq<Xml>, items: seq<Object>, mk: Maker)
    requires Makes(mk)
    decreases sc, 1
  {
    |items| == |nodes| && forall i :: 0 <= i < |nodes| ==> Yields(sc, Some(nodes[i]), mk(sc), items[i], mk)
  }

  /** A load yields an object if and only if the node is loadable, and then exactly that one. */
  lemma {:induction false} LoadExact(sc: Schema, node: Option<Xml>, into: Object, mk: Maker)
    requires Typed(sc, into) && Makes(mk)
    ensures Load(sc, node, into, mk).Some? <==> Loadable(sc, node)
    ensures forall o :: Load(sc, node, into, mk) == Some(o) <==> Loadable(sc, node) && Yields(sc, node, into, o, mk)
    decreases sc, 0, 0
  {
    if node.Some? && node.value.Element? {
      LoadAllExact(sc.members, node.value, into.fields, mk);
      forall o ensures Load(sc, node, into, mk) == Some(o) <==> Loadable(sc, node) && Yields(sc, node, into, o, mk) {
        assert o.valid ==> o == Object(true, o.fields);
      }
    }
  }

  lemma {:induction false} LoadAllExact(ms: seq<Member>, e: Xml, fs: seq<Value>, mk: Maker)
    requires TypedAll(ms, fs) && e.Element? && Makes(mk)
    ensures LoadAll(ms, e, fs, mk).Some? <==> LoadableAll(ms, e)
    ensures forall rs :: LoadAll(ms, e, fs, mk) == Some(rs) <==> LoadableAll(ms, e) && YieldsAll(ms, e, fs, rs, mk)
    decreases ms
  {
    if ms != [] {
      LoadMemberExact(ms[0], e, fs[0], mk);
      LoadAllExact(ms[1..], e, fs[1..], mk);
      forall rs ensures LoadAll(ms, e, fs, mk) == Some(rs) <==> LoadableAll(ms, e) && YieldsAll(ms, e, fs, rs, mk) {
        assert |rs| > 0 ==> rs == [rs[0]] + rs[1..];
      }
    }
  }

  lemma {:induction false} LoadMemberExact(m: Member, e: Xml, v: Value, mk: Maker)
    requires TypedValue(m, v) && e.Element? && Makes(mk)
    ensures LoadMember(m, e, v, mk).Some? <==> LoadableMember(m, e)
    ensures forall r :: LoadMember(m, e, v, mk) == Some(r) <==> LoadableMember(m, e) && YieldsMember(m, e, v, r, mk)
    decreases m
  {
    match m
    case Attr(_, _, _) =>
    case Child(sc) => LoadExact(sc, First(ChildrenNamed(e.children, sc.tag)), v.obj, mk);
    case Collection(sc) =>
      var nodes := ChildrenNamed(e.children, sc.tag);
      LoadListExact(sc, nodes, mk);
      forall r ensures LoadMember(m, e, v, mk) == Some(r) <==> LoadableMember(m, e) && YieldsMember(m, e, v, r, mk) {
        if r.ListValue? && v.items <= r.items { assert r.items == v.items + r.items[|v.items|..]; }
      }
  }

  lemma {:induction false} LoadListExact(sc: Schema, nodes: seq<Xml>, mk: Maker)
    requires Makes(mk)
    ensures LoadList(sc, nodes, mk).Some? <==> AllLoadable(sc, nodes)
    ensures forall os ::
              LoadList(sc, nodes, mk) == Some(os) <==> AllLoadable(sc, nodes) && ItemsYield(sc, nodes, os, mk)
    decreases sc, 1, |nodes|
  {
    if nodes != [] {
      LoadExact(sc, Some(nodes[0]), mk(sc), mk);
      LoadListExact(sc, nodes[1..], mk);
      assert forall x :: x in nodes <==> x == nodes[0] || x in nodes[1..];
      forall os
        ensures LoadList(sc, nodes, mk) == Some(os) <==> AllLoadable(sc, nodes) && ItemsYield(sc, nodes, os, mk)
      {
        if |os| == |nodes| { ItemsCons(sc, nodes, os, mk); }
      }
    }
  }

  lemma ItemsCons(sc: Schema, nodes: seq<Xml>, os: seq<Object>, mk: Maker)
    requires Makes(mk) && nodes != [] && |os| == |nodes|
    ensures os == [os[0]] + os[1..]
    ensures ItemsYield(sc, nodes, os, mk)
            <==> Yields(sc, Some(nodes[0]), mk(sc), os[0], mk) && ItemsYield(sc, nodes[1..], os[1..], mk)
  {
    hide Yields;
    assert forall i :: 0 <= i < |nodes| - 1 ==> nodes[1..][i] == nodes[i + 1] && os[1..][i] == os[i + 1];
  }

  // ---- What a save followed by a load amounts to ----

  /** Written parts become valid and lose what follows a NUL; unwritten ones stay as made. */
  ghost function Norm(sc: Schema, o: Object, ignoreValid: bool, into: Object, mk: Maker): Object
    requires Typed(sc, o) && Typed(sc, into) && Makes(mk)
    decreases sc, 0, 0
  {
    if Omitted(sc, o, ignoreValid) then into
    else Object(true, NormAll(sc.members, o.fields, into.fields, ignoreValid, mk))
  }

  ghost function NormAll(ms: seq<Member>, fs: seq<Value>, gs: seq<Value>, ignoreValid: bool, mk: Maker): seq<Value>
    requires TypedAll(ms, fs) && TypedAll(ms, gs) && Makes(mk)
    decreases ms
  {
    if ms == [] then []
    else [NormValue(ms[0], fs[0], gs[0], ignoreValid, mk)] + NormAll(ms[1..], fs[1..], gs[1..], ignoreValid, mk)
  }

  ghost function NormValue(m: Member, v: Value, g: Value, ignoreValid: bool, mk: Maker): Value
    requires TypedValue(m, v) && TypedValue(m, g) && Makes(mk)
    decreases m
  {
    match m
    case Attr(_, _, _) => PrimValue(CutPrim(v.prim))
    case Child(sc) => ObjectValue(Norm(sc, v.obj, ignoreValid, g.obj, mk))
    case Collection(sc) => ListValue(NormList(sc, v.items, ignoreValid, mk))
  }

  ghost function NormList(sc: Schema, os: seq<Object>, ignoreValid: bool, mk: Maker): seq<Object>
    requires (forall o <- os :: Typed(sc, o)) && Makes(mk)
    decreases sc, 1, |os|
  {
    if os == [] then []
    else
      (if Omitted(sc, os[0], ignoreValid) then [] else [Norm(sc, os[0], ignoreValid, mk(sc), mk)])
      + NormList(sc, os[1..], ignoreValid, mk)
  }

  // ---- What a save writes, and in which order ----

  /** An object is left out if it is a collection class without items, or not valid when that
      counts; any other is one element with the tag of its class. */
  lemma SaveWrites(sc: Schema, o: Object, ignoreValid: bool)
    requires WellFormed(sc) && Typed(sc, o) && Save(sc, o, ignoreValid).Some?
    ensures var xs := Save(sc, o, ignoreValid).value;
            var empty := sc.wrapper && forall i :: 0 <= i < |o.fields| ==> o.fields[i] == ListValue([]);
            if empty || !(ignoreValid || o.valid) then xs == []
            else |xs| == 1 && xs[0].Element? && xs[0].tag == sc.tag
                 && SaveAll(sc.members, o.fields, ignoreValid) == Some(Content(xs[0].attrs, xs[0].children))
  {
    if sc.wrapper { FieldsAreLists(sc.members, o.fields); }
  }

  lemma {:induction false} FieldsAreLists(ms: seq<Member>, fs: seq<Value>)
    requires TypedAll(ms, fs) && forall m <- ms :: m.Collection?
    ensures forall i :: 0 <= i < |fs| ==> fs[i].ListValue?
    decreases |ms|
  {
    if ms != [] {
      assert ms[0] in ms && forall m <- ms[1..] :: m in ms;
      FieldsAreLists(ms[1..], fs[1..]);
    }
  }

  lemma {:induction false} TypedSplit(ms: seq<Member>, fs: seq<Value>, k: nat)
    requires TypedAll(ms, fs) && k <= |ms|
    ensures TypedAll(ms[..k], fs[..k]) && TypedAll(ms[k..], fs[k..])
    decreases k
  {
    if k > 0 {
      TypedSplit(ms[1..], fs[1..], k - 1);
      assert ms[..k][1..] == ms[1..][..k - 1] && fs[..k][1..] == fs[1..][..k - 1];
      assert ms[1..][k - 1..] == ms[k..] && fs[1..][k - 1..] == fs[k..];
    } else {
      assert ms[0..] == ms && fs[0..] == fs;
    }
  }

  /** Members write in their order: whatever the first k write, attributes and nodes, stands
      before what the others write; one that throws makes the whole throw. */
  lemma {:induction false} SavedInOrder(ms: seq<Member>, fs: seq<Value>, k: nat, ignoreValid: bool)
    requires TypedAll(ms, fs) && k <= |ms|
    ensures TypedAll(ms[..k], fs[..k]) && TypedAll(ms[k..], fs[k..])
    ensures SaveAll(ms, fs, ignoreValid)
            == Joined(SaveAll(ms[..k], fs[..k], ignoreValid), SaveAll(ms[k..], fs[k..], ignoreValid))
    decreases k
  {
    TypedSplit(ms, fs, k);
    if k == 0 {
      assert ms[0..] == ms && fs[0..] == fs;
      JoinedNothing(SaveAll(ms, fs, ignoreValid));
    } else {
      hide SaveMember, Joined, SaveAll;
      assert ms[..k][1..] == ms[1..][..k - 1] && fs[..k][1..] == fs[1..][..k - 1];
      assert ms[1..][k - 1..] == ms[k..] && fs[1..][k - 1..] == fs[k..];
      SavedInOrder(ms[1..], fs[1..], k - 1, ignoreValid);
      SaveAllHead(ms, fs, ignoreValid);
      SaveAllHead(ms[..k], fs[..k], ignoreValid);
      JoinedTwice(SaveMember(ms[0], fs[0], ignoreValid), SaveAll(ms[1..][..k - 1], fs[1..][..k - 1], ignoreValid),
                  SaveAll(ms[k..], fs[k..], ignoreValid));
    }
  }

  /** One content behind the other, unless one of them threw. */
  function Joined(a: Option<Content>, b: Option<Content>): Option<Content> {
    if a.None? || b.None? then None
    else Some(Content(a.value.attrs + b.value.attrs, a.value.nodes + b.value.nodes))
  }

  lemma JoinedNothing(a: Option<Content>)
    ensures Joined(Some(Content([], [])), a) == a
  {
    if a.Some? { assert [] + a.value.attrs == a.value.attrs && [] + a.value.nodes == a.value.nodes; }
  }

  lemma JoinedTwice(a: Option<Content>, b: Option<Content>, c: Option<Content>)
    ensures Joined(a, Joined(b, c)) == Joined(Joined(a, b), c)
  {
    if a.Some? && b.Some? && c.Some? {
      assert a.value.attrs + (b.value.attrs + c.value.attrs) == a.value.attrs + b.value.attrs + c.value.attrs;
      assert a.value.nodes + (b.value.nodes + c.value.nodes) == a.value.nodes + b.value.nodes + c.value.nodes;
    }
  }

  lemma SaveAllHead(ms: seq<Member>, fs: seq<Value>, ignoreValid: bool)
    requires TypedAll(ms, fs) && ms != []
    ensures SaveAll(ms, fs, ignoreValid)
            == Joined(SaveMember(ms[0], fs[0], ignoreValid), SaveAll(ms[1..], fs[1..], ignoreValid))
  {
  }

  /** A collection writes its items in their order, each as a save of its own. */
  lemma {:induction false} ItemsInOrder(sc: Schema, a: seq<Object>, o: Object, b: seq<Object>, ignoreValid: bool)
    requires (forall x <- a :: Typed(sc, x)) && Typed(sc, o) && (forall x <- b :: Typed(sc, x))
    requires SaveList(sc, a + [o] + b, ignoreValid).Some?
    ensures SaveList(sc, a, ignoreValid).Some? && Save(sc, o, ignoreValid).Some? && SaveList(sc, b, ignoreValid).Some?
    ensures SaveList(sc, a + [o] + b, ignoreValid).value
            == SaveList(sc, a, ignoreValid).value + Save(sc, o, ignoreValid).value + SaveList(sc, b, ignoreValid).value
    decreases |a|
  {
    var os := a + [o] + b;
    if a == [] {
      assert os[1..] == b && [] + Save(sc, o, ignoreValid).value == Save(sc, o, ignoreValid).value;
    } else {
      assert os[1..] == a[1..] + [o] + b;
      ItemsInOrder(sc, a[1..], o, b, ignoreValid);
      var x, y := Save(sc, a[0], ignoreValid).value, SaveList(sc, a[1..], ignoreValid).value;
      var z, w := Save(sc, o, ignoreValid).value, SaveList(sc, b, ignoreValid).value;
      assert x + (y + z + w) == x + y + z + w;
    }
  }

  // ---- Finding one's own nodes among the siblings ----

  lemma {:induction false} NamedAppend(a: seq<Xml>, b: seq<Xml>, tag: string)
    ensures ChildrenNamed(a + b, tag) == ChildrenNamed(a, tag) + ChildrenNamed(b, tag)
    decreases |a|
  {
    if a == [] {
      assert a + b == b;
    } else {
      assert (a + b)[1..] == a[1..] + b;
      NamedAppend(a[1..], b, tag);
    }
  }

  ghost predicate AllTagged(nodes: seq<Xml>, tag: string) {
    forall i :: 0 <= i < |nodes| ==> nodes[i].Element? && nodes[i].tag == tag
  }

  lemma {:induction false} NamedTagged(nodes: seq<Xml>, own: string, tag: string)
    requires AllTagged(nodes, own)
    ensures ChildrenNamed(nodes, tag) == if own == tag then nodes else []
    decreases |nodes|
  {
    if nodes != [] {
      NamedTagged(nodes[1..], own, tag);
      assert [nodes[0]] + nodes[1..] == nodes;
    }
  }

  lemma {:induction false} AttributeAppend(a: Attrs, b: Attrs, name: string)
    ensures Attribute(a + b, name) == if Attribute(a, name).Some? then Attribute(a, name) else Attribute(b, name)
    decreases |a|
  {
    if a == [] {
      assert a + b == b;
    } else {
      assert (a + b)[1..] == a[1..] + b;
      AttributeAppend(a[1..], b, name);
    }
  }

  lemma {:induction false} SavedListTagged(sc: Schema, os: seq<Object>, ignoreValid: bool)
    requires (forall o <- os :: Typed(sc, o)) && SaveList(sc, os, ignoreValid).Some?
    ensures AllTagged(SaveList(sc, os, ignoreValid).value, sc.tag)
    decreases |os|
  {
    if os != [] { SavedListTagged(sc, os[1..], ignoreValid); }
  }

  /** A member writes under its own name or tag only. */
  lemma SavedMemberTagged(m: Member, v: Value, ignoreValid: bool)
    requires TypedValue(m, v) && SaveMember(m, v, ignoreValid).Some?
    ensures var c := SaveMember(m, v, ignoreValid).value;
            if m.Attr? then c.nodes == [] && c.attrs == [(m.name, ToText(m.kind, v.prim).value)]
            else c.attrs == [] && AllTagged(c.nodes, m.schema.tag)
  {
    if m.Collection? { SavedListTagged(m.schema, v.items, ignoreValid); }
  }

  /** What member m of the class finds in element e is what it wrote. */
  ghost predicate FindsOwn(m: Member, v: Value, e: Xml, ignoreValid: bool)
    requires TypedValue(m, v)
  {
    && e.Element? && SaveMember(m, v, ignoreValid).Some?
    && if m.Attr? then Attribute(e.attrs, m.name) == Some(Cut(ToText(m.kind, v.prim).value))
       else ChildrenNamed(e.children, m.schema.tag) == SaveMember(m, v, ignoreValid).value.nodes
  }

  ghost predicate AllFindOwn(ms: seq<Member>, fs: seq<Value>, e: Xml, ignoreValid: bool)
    requires TypedAll(ms, fs)
    decreases |ms|
  {
    ms == [] || (FindsOwn(ms[0], fs[0], e, ignoreValid) && AllFindOwn(ms[1..], fs[1..], e, ignoreValid))
  }

  ghost predicate NoClash(m: Member, ms: seq<Member>) {
    forall i :: 0 <= i < |ms| ==> !Clash(m, ms[i])
  }

  ghost predicate Distinct(ms: seq<Member>) {
    forall i, j :: 0 <= i < j < |ms| ==> !Clash(ms[i], ms[j])
  }

  /** Members written elsewhere leave no trace under m's name or tag. */
  lemma {:induction false} OthersInvisible(m: Member, ms: seq<Member>, fs: seq<Value>, ignoreValid: bool)
    requires TypedAll(ms, fs) && SaveAll(ms, fs, ignoreValid).Some? && NoClash(m, ms)
    ensures var c := SaveAll(ms, fs, ignoreValid).value;
            if m.Attr? then Attribute(c.attrs, m.name) == None else ChildrenNamed(c.nodes, m.schema.tag) == []
    decreases |ms|
  {
    if ms != [] {
      var c, d := SaveMember(ms[0], fs[0], ignoreValid).value, SaveAll(ms[1..], fs[1..], ignoreValid).value;
      OthersInvisible(m, ms[1..], fs[1..], ignoreValid);
      SavedMemberTagged(ms[0], fs[0], ignoreValid);
      assert !Clash(m, ms[0]);
      if m.Attr? {
        AttributeAppend(c.attrs, d.attrs, m.name);
      } else {
        NamedAppend(c.nodes, d.nodes, m.schema.tag);
        if !ms[0].Attr? { NamedTagged(c.nodes, ms[0].schema.tag, m.schema.tag); }
      }
    }
  }

  /** Putting foreign content in front changes nothing for the members behind. */
  lemma {:induction false} ForeignPrefix(ms: seq<Member>, fs: seq<Value>, tag: string,
      a: Attrs, ns: seq<Xml>, b: Attrs, os: seq<Xml>, ignoreValid: bool)
    requires TypedAll(ms, fs) && AllFindOwn(ms, fs, Element(tag, b, os), ignoreValid)
    requires forall i :: 0 <= i < |ms| ==>
               if ms[i].Attr? then Attribute(a, ms[i].name) == None else ChildrenNamed(ns, ms[i].schema.tag) == []
    ensures AllFindOwn(ms, fs, Element(tag, a + b, ns + os), ignoreValid)
    decreases |ms|
  {
    if ms != [] {
      var m := ms[0];
      if m.Attr? { AttributeAppend(a, b, m.name); } else { NamedAppend(ns, os, m.schema.tag); }
      assert forall i :: 0 <= i < |ms[1..]| ==> ms[1..][i] == ms[i + 1];
      ForeignPrefix(ms[1..], fs[1..], tag, a, ns, b, os, ignoreValid);
    }
  }

  lemma {:induction false} EveryoneFindsOwn(ms: seq<Member>, fs: seq<Value>, tag: string, ignoreValid: bool)
    requires TypedAll(ms, fs) && SaveAll(ms, fs, ignoreValid).Some? && Distinct(ms)
    ensures var c := SaveAll(ms, fs, ignoreValid).value;
            AllFindOwn(ms, fs, Element(tag, c.attrs, c.nodes), ignoreValid)
    decreases |ms|
  {
    if ms != [] {
      var m := ms[0];
      var c, d := SaveMember(m, fs[0], ignoreValid).value, SaveAll(ms[1..], fs[1..], ignoreValid).value;
      assert forall i :: 0 <= i < |ms[1..]| ==> ms[1..][i] == ms[i + 1];
      EveryoneFindsOwn(ms[1..], fs[1..], tag, ignoreValid);
      OthersInvisible(m, ms[1..], fs[1..], ignoreValid);
      SavedMemberTagged(m, fs[0], ignoreValid);
      if m.Attr? {
        AttributeAppend(c.attrs, d.attrs, m.name);
      } else {
        NamedAppend(c.nodes, d.nodes, m.schema.tag);
        NamedTagged(c.nodes, m.schema.tag, m.schema.tag);
      }
      forall i | 0 <= i < |ms[1..]|
        ensures if ms[1..][i].Attr? then Attribute(c.attrs, ms[1..][i].name) == None
                else ChildrenNamed(c.nodes, ms[1..][i].schema.tag) == []
      {
        var n := ms[i + 1];
        assert !Clash(m, n);
        if !m.Attr? && !n.Attr? { NamedTagged(c.nodes, m.schema.tag, n.schema.tag); }
      }
      ForeignPrefix(ms[1..], fs[1..], tag, c.attrs, c.nodes, d.attrs, d.nodes, ignoreValid);
    }
  }

  // ---- The round trip ----

  /** Loading what was saved yields the normal form, and Save writes one element or none. */
  lemma {:induction false} RoundTrip(sc: Schema, o: Object, ignoreValid: bool, into: Object, mk: Maker)
    requires WellFormed(sc) && Typed(sc, o) && Typed(sc, into) && Makes(mk) && IsFresh(sc, into)
    requires Save(sc, o, ignoreValid).Some?
    ensures Load(sc, First(Save(sc, o, ignoreValid).value), into, mk) == Some(Norm(sc, o, ignoreValid, into, mk))
    decreases sc, 0, 0
  {
    if !Omitted(sc, o, ignoreValid) {
      EveryoneFindsOwn(sc.members, o.fields, sc.tag, ignoreValid);
      var e := Save(sc, o, ignoreValid).value[0];
      RoundTripAll(sc.members, o.fields, into.fields, e, ignoreValid, mk);
    }
  }

  lemma {:induction false} RoundTripAll(ms: seq<Member>, fs: seq<Value>, gs: seq<Value>, e: Xml,
      ignoreValid: bool, mk: Maker)
    requires WellFormedAll(ms) && TypedAll(ms, fs) && TypedAll(ms, gs) && Makes(mk) && FreshAll(ms, gs)
    requires e.Element? && AllFindOwn(ms, fs, e, ignoreValid)
    ensures LoadAll(ms, e, gs, mk) == Some(NormAll(ms, fs, gs, ignoreValid, mk))
    decreases ms
  {
    if ms != [] {
      RoundTripMember(ms[0], fs[0], gs[0], e, ignoreValid, mk);
      RoundTripAll(ms[1..], fs[1..], gs[1..], e, ignoreValid, mk);
    }
  }

  lemma {:induction false} RoundTripMember(m: Member, v: Value, g: Value, e: Xml, ignoreValid: bool, mk: Maker)
    requires WellFormedMember(m) && TypedValue(m, v) && TypedValue(m, g) && Makes(mk) && FreshValue(m, g)
    requires FindsOwn(m, v, e, ignoreValid)
    ensures LoadMember(m, e, g, mk) == Some(NormValue(m, v, g, ignoreValid, mk))
    decreases m
  {
    match m
    case Attr(_, kind, _) => TextRoundTrip(kind, v.prim);
    case Child(sc) => RoundTrip(sc, v.obj, ignoreValid, g.obj, mk);
    case Collection(sc) =>
      RoundTripList(sc, v.items, ignoreValid, mk);
      assert [] + NormList(sc, v.items, ignoreValid, mk) == NormList(sc, v.items, ignoreValid, mk);
  }

  lemma {:induction false} RoundTripList(sc: Schema, os: seq<Object>, ignoreValid: bool, mk: Maker)
    requires WellFormed(sc) && (forall o <- os :: Typed(sc, o)) && Makes(mk)
    requires SaveList(sc, os, ignoreValid).Some?
    ensures LoadList(sc, SaveList(sc, os, ignoreValid).value, mk) == Some(NormList(sc, os, ignoreValid, mk))
    decreases sc, 1, |os|
  {
    if os != [] {
      var x, xs := Save(sc, os[0], ignoreValid).value, SaveList(sc, os[1..], ignoreValid).value;
      RoundTrip(sc, os[0], ignoreValid, mk(sc), mk);
      RoundTripList(sc, os[1..], ignoreValid, mk);
      if x != [] {
        assert (x + xs)[1..] == xs;
      } else {
        var rest := NormList(sc, os[1..], ignoreValid, mk);
        assert x + xs == xs && [] + rest == rest;
      }
    }
  }

  // ---- Same data ----

  predicate NulFree(sc: Schema, o: Object)
    requires Typed(sc, o)
    decreases sc
  {
    NulFreeAll(sc.members, o.fields)
  }

  predicate NulFreeAll(ms: seq<Member>, fs: seq<Value>)
    requires TypedAll(ms, fs)
    decreases ms
  {
    ms == [] || (NulFreeValue(ms[0], fs[0]) && NulFreeAll(ms[1..], fs[1..]))
  }

  predicate NulFreeValue(m: Member, v: Value)
    requires TypedValue(m, v)
    decreases m
  {
    match m
    case Attr(_, _, _) => NulFreePrim(v.prim)
    case Child(sc) => NulFree(sc, v.obj)
    case Collection(sc) => forall o <- v.items :: NulFree(sc, o)
  }

  /** Equal in every attribute, and item by item in every collection; flags aside. */
  predicate SameData(sc: Schema, a: Object, b: Object)
    requires Typed(sc, a)
    decreases sc
  {
    SameAll(sc.members, a.fields, b.fields)
  }

  predicate SameAll(ms: seq<Member>, fs: seq<Value>, gs: seq<Value>)
    requires TypedAll(ms, fs)
    decreases ms
  {
    |gs| == |fs| && (ms == [] || (SameValue(ms[0], fs[0], gs[0]) && SameAll(ms[1..], fs[1..], gs[1..])))
  }

  predicate SameValue(m: Member, v: Value, w: Value)
    requires TypedValue(m, v)
    decreases m
  {
    match m
    case Attr(_, _, _) => w == v
    case Child(sc) => w.ObjectValue? && SameData(sc, v.obj, w.obj)
    case Collection(sc) =>
      w.ListValue? && |w.items| == |v.items| && forall i :: 0 <= i < |v.items| ==> SameData(sc, v.items[i], w.items[i])
  }

  /** A full save keeps the data of an object exactly when no text holds a NUL. */
  lemma {:induction false} NormSameData(sc: Schema, o: Object, into: Object, mk: Maker)
    requires WellFormed(sc) && Typed(sc, o) && Typed(sc, into) && Makes(mk) && IsFresh(sc, into)
    ensures SameData(sc, o, Norm(sc, o, true, into, mk)) <==> NulFree(sc, o)
    decreases sc
  {
    if Omitted(sc, o, true) {
      EmptyWrapperSame(sc.members, o.fields, into.fields);
    } else {
      NormSameAll(sc.members, o.fields, into.fields, mk);
    }
  }

  /** Two objects without items, of a class that has collections only. */
  lemma {:induction false} EmptyWrapperSame(ms: seq<Member>, fs: seq<Value>, gs: seq<Value>)
    requires TypedAll(ms, fs) && TypedAll(ms, gs) && FreshAll(ms, gs)
    requires (forall m <- ms :: m.Collection?) && (forall f <- fs :: f.ListValue? ==> f.items == [])
    ensures SameAll(ms, fs, gs) && NulFreeAll(ms, fs)
    decreases |ms|
  {
    if ms != [] {
      assert ms[0] in ms && fs[0] in fs;
      EmptyWrapperSame(ms[1..], fs[1..], gs[1..]);
    }
  }

  lemma {:induction false} NormSameAll(ms: seq<Member>, fs: seq<Value>, gs: seq<Value>, mk: Maker)
    requires WellFormedAll(ms) && TypedAll(ms, fs) && TypedAll(ms, gs) && Makes(mk) && FreshAll(ms, gs)
    ensures SameAll(ms, fs, NormAll(ms, fs, gs, true, mk)) <==> NulFreeAll(ms, fs)
    ensures |NormAll(ms, fs, gs, true, mk)| == |fs|
    decreases ms
  {
    if ms != [] {
      NormSameValue(ms[0], fs[0], gs[0], mk);
      NormSameAll(ms[1..], fs[1..], gs[1..], mk);
      var n := NormAll(ms, fs, gs, true, mk);
      assert n[1..] == NormAll(ms[1..], fs[1..], gs[1..], true, mk);
    }
  }

  lemma {:induction false} NormSameValue(m: Member, v: Value, g: Value, mk: Maker)
    requires WellFormedMember(m) && TypedValue(m, v) && TypedValue(m, g) && Makes(mk) && FreshValue(m, g)
    ensures SameValue(m, v, NormValue(m, v, g, true, mk)) <==> NulFreeValue(m, v)
    decreases m
  {
    match m
    case Attr(_, kind, _) => if v.prim.StringVal? { CutIdentity(v.prim.s); }
    case Child(sc) => NormSameData(sc, v.obj, g.obj, mk);
    case Collection(sc) =>
      NormListItems(sc, v.items, mk);
      forall i | 0 <= i < |v.items|
        ensures SameData(sc, v.items[i], NormList(sc, v.items, true, mk)[i]) <==> NulFree(sc, v.items[i])
      {
        NormSameData(sc, v.items[i], mk(sc), mk);
      }
  }

  lemma {:induction false} NormListItems(sc: Schema, os: seq<Object>, mk: Maker)
    requires !sc.wrapper && (forall o <- os :: Typed(sc, o)) && Makes(mk)
    ensures |NormList(sc, os, true, mk)| == |os|
    ensures forall i :: 0 <= i < |os| ==> NormList(sc, os, true, mk)[i] == Norm(sc, os[i], true, mk(sc), mk)
    decreases |os|
  {
    if os != [] { NormListItems(sc, os[1..], mk); }
  }

  // ---- When a full save throws ----

  /** Every enumeration in the object holds one of its enumerators. */
  predicate EnumsValid(sc: Schema, o: Object)
    requires Typed(sc, o)
    decreases sc
  {
    EnumsValidAll(sc.members, o.fields)
  }

  predicate EnumsValidAll(ms: seq<Member>, fs: seq<Value>)
    requires TypedAll(ms, fs)
    decreases ms
  {
    ms == [] || (EnumsValidValue(ms[0], fs[0]) && EnumsValidAll(ms[1..], fs[1..]))
  }

  predicate EnumsValidValue(m: Member, v: Value)
    requires TypedValue(m, v)
    decreases m
  {
    match m
    case Attr(_, kind, _) => kind.EnumKind? ==> 0 <= v.prim.index < |kind.names|
    case Child(sc) => EnumsValid(sc, v.obj)
    case Collection(sc) => forall o <- v.items :: EnumsValid(sc, o)
  }

  /** Saving everything throws exactly when some enumeration holds another number. */
  lemma {:induction false} SaveSucceeds(sc: Schema, o: Object)
    requires WellFormed(sc) && Typed(sc, o)
    ensures Save(sc, o, true).Some? <==> EnumsValid(sc, o)
    decreases sc, 0, 0
  {
    if Omitted(sc, o, true) {
      EmptyWrapperValid(sc.members, o.fields);
    } else {
      SaveAllSucceeds(sc.members, o.fields);
    }
  }

  lemma {:induction false} EmptyWrapperValid(ms: seq<Member>, fs: seq<Value>)
    requires TypedAll(ms, fs) && (forall m <- ms :: m.Collection?) && (forall f <- fs :: f.ListValue? ==> f.items == [])
    ensures EnumsValidAll(ms, fs)
    decreases |ms|
  {
    if ms != [] {
      assert ms[0] in ms && fs[0] in fs;
      EmptyWrapperValid(ms[1..], fs[1..]);
    }
  }

  lemma {:induction false} SaveAllSucceeds(ms: seq<Member>, fs: seq<Value>)
    requires WellFormedAll(ms) && TypedAll(ms, fs)
    ensures SaveAll(ms, fs, true).Some? <==> EnumsValidAll(ms, fs)
    decreases ms
  {
    if ms != [] {
      SaveMemberSucceeds(ms[0], fs[0]);
      SaveAllSucceeds(ms[1..], fs[1..]);
    }
  }

  lemma {:induction false} SaveMemberSucceeds(m: Member, v: Value)
    requires WellFormedMember(m) && TypedValue(m, v)
    ensures SaveMember(m, v, true).Some? <==> EnumsValidValue(m, v)
    decreases m
  {
    match m
    case Attr(_, _, _) =>
    case Child(sc) => SaveSucceeds(sc, v.obj);
    case Collection(sc) => SaveListSucceeds(sc, v.items);
  }

  lemma {:induction false} SaveListSucceeds(sc: Schema, os: seq<Object>)
    requires WellFormed(sc) && forall o <- os :: Typed(sc, o)
    ensures SaveList(sc, os, true).Some? <==> forall o <- os :: EnumsValid(sc, o)
    decreases sc, 1, |os|
  {
    if os != [] {
      SaveSucceeds(sc, os[0]);
      SaveListSucceeds(sc, os[1..]);
      assert os == [os[0]] + os[1..];
    }
  }

  /** Saving everything and loading it into a fresh object gives the same data in every
      field and the same order in every collection, if and only if no text holds a NUL. */
  lemma FullRoundTrip(sc: Schema, o: Object, into: Object, mk: Maker)
    requires WellFormed(sc) && Typed(sc, o) && Typed(sc, into) && Makes(mk) && IsFresh(sc, into)
    requires EnumsValid(sc, o)
    ensures Save(sc, o, true).Some?
    ensures var r := Load(sc, First(Save(sc, o, true).value), into, mk);
            r.Some? && (SameData(sc, o, r.value) <==> NulFree(sc, o))
  {
    SaveSucceeds(sc, o);
    RoundTrip(sc, o, true, into, mk);
    NormSameData(sc, o, into, mk);
  }

  // ---- Saving again what was loaded ----

  /** As fromXml leaves objects: a valid object is printable throughout, and items are valid. */
  predicate Clean(sc: Schema, o: Object)
    requires Typed(sc, o)
    decreases sc
  {
    o.valid ==> CleanAll(sc.members, o.fields)
  }

  predicate CleanAll(ms: seq<Member>, fs: seq<Value>)
    requires TypedAll(ms, fs)
    decreases ms
  {
    ms == [] || (CleanValue(ms[0], fs[0]) && CleanAll(ms[1..], fs[1..]))
  }

  predicate CleanValue(m: Member, v: Value)
    requires TypedValue(m, v)
    decreases m
  {
    match m
    case Attr(_, kind, _) => NulFreePrim(v.prim) && ToText(kind, v.prim).Some?
    case Child(sc) => Clean(sc, v.obj)
    case Collection(sc) => forall o <- v.items :: o.valid && Clean(sc, o)
  }

  lemma {:induction false} LoadClean(sc: Schema, node: Option<Xml>, into: Object, mk: Maker)
    requires WellFormed(sc) && Typed(sc, into) && IsFresh(sc, into) && Makes(mk) && Load(sc, node, into, mk).Some?
    ensures var o := Load(sc, node, into, mk).value; Typed(sc, o) && Clean(sc, o) && (o.valid <==> node.Some?)
    decreases sc, 0, 0
  {
    if node.Some? { LoadAllClean(sc.members, node.value, into.fields, mk); }
  }

  lemma {:induction false} LoadAllClean(ms: seq<Member>, e: Xml, fs: seq<Value>, mk: Maker)
    requires WellFormedAll(ms) && TypedAll(ms, fs) && FreshAll(ms, fs) && e.Element? && Makes(mk)
    requires LoadAll(ms, e, fs, mk).Some?
    ensures var r := LoadAll(ms, e, fs, mk).value; TypedAll(ms, r) && CleanAll(ms, r)
    decreases ms
  {
    if ms != [] {
      LoadMemberClean(ms[0], e, fs[0], mk);
      LoadAllClean(ms[1..], e, fs[1..], mk);
      var r := LoadAll(ms, e, fs, mk).value;
      assert r[1..] == LoadAll(ms[1..], e, fs[1..], mk).value;
    }
  }

  lemma {:induction false} AttributeNulFree(attrs: Attrs, name: string)
    ensures Attribute(attrs, name).Some? ==> '\0' !in Attribute(attrs, name).value
    decreases |attrs|
  {
    if attrs != [] {
      CutIdentity(attrs[0].1);
      AttributeNulFree(attrs[1..], name);
    }
  }

  lemma {:induction false} LoadMemberClean(m: Member, e: Xml, v: Value, mk: Maker)
    requires WellFormedMember(m) && TypedValue(m, v) && FreshValue(m, v) && e.Element? && Makes(mk)
    requires LoadMember(m, e, v, mk).Some?
    ensures var r := LoadMember(m, e, v, mk).value; TypedValue(m, r) && CleanValue(m, r)
    decreases m
  {
    match m
    case Attr(name, kind, default) =>
      AttributeNulFree(e.attrs, name);
      var raw := Attribute(e.attrs, name);
      if !(raw.None? && default.Some?) { ReadIsPrintable(kind, raw); }
    case Child(sc) => LoadClean(sc, FirstChildElement(e.children, sc.tag), v.obj, mk);
    case Collection(sc) =>
      LoadListClean(sc, ChildrenNamed(e.children, sc.tag), mk);
      assert forall o :: o in v.items + LoadList(sc, ChildrenNamed(e.children, sc.tag), mk).value
                         ==> o in LoadList(sc, ChildrenNamed(e.children, sc.tag), mk).value;
  }

  lemma {:induction false} LoadListClean(sc: Schema, nodes: seq<Xml>, mk: Maker)
    requires WellFormed(sc) && Makes(mk) && LoadList(sc, nodes, mk).Some?
    ensures forall o <- LoadList(sc, nodes, mk).value :: Typed(sc, o) && o.valid && Clean(sc, o)
    decreases sc, 1, |nodes|
  {
    if nodes != [] {
      LoadClean(sc, Some(nodes[0]), mk(sc), mk);
      LoadListClean(sc, nodes[1..], mk);
    }
  }

  /** Saving only valid parts never throws on a clean object, and saves its normal form
      to the very same tree. */
  lemma {:induction false} NormSavesSame(sc: Schema, o: Object, into: Object, mk: Maker)
    requires WellFormed(sc) && Typed(sc, o) && Clean(sc, o)
    requires Typed(sc, into) && IsFresh(sc, into) && Makes(mk)
    ensures var n := Norm(sc, o, false, into, mk);
            && Typed(sc, n) && Save(sc, o, false).Some? && Save(sc, n, false) == Save(sc, o, false)
            && (Omitted(sc, n, false) <==> Omitted(sc, o, false))
    decreases sc, 0, 0
  {
    if !Omitted(sc, o, false) {
      NormAllSavesSame(sc.members, o.fields, into.fields, mk);
    }
  }

  lemma {:induction false} NormAllSavesSame(ms: seq<Member>, fs: seq<Value>, gs: seq<Value>, mk: Maker)
    requires WellFormedAll(ms) && TypedAll(ms, fs) && CleanAll(ms, fs)
    requires TypedAll(ms, gs) && FreshAll(ms, gs) && Makes(mk)
    ensures var ns := NormAll(ms, fs, gs, false, mk);
            && TypedAll(ms, ns) && SaveAll(ms, fs, false).Some? && SaveAll(ms, ns, false) == SaveAll(ms, fs, false)
            && |ns| == |fs|
            && (forall i :: 0 <= i < |fs| ==> (ns[i].ListValue? <==> fs[i].ListValue?))
            && (forall i :: 0 <= i < |fs| && fs[i].ListValue? ==> (ns[i].items == [] <==> fs[i].items == []))
    decreases ms
  {
    if ms != [] {
      NormValueSavesSame(ms[0], fs[0], gs[0], mk);
      NormAllSavesSame(ms[1..], fs[1..], gs[1..], mk);
      var ns := NormAll(ms, fs, gs, false, mk);
      assert ns[1..] == NormAll(ms[1..], fs[1..], gs[1..], false, mk);
      assert forall i :: 1 <= i < |fs| ==> fs[i] == fs[1..][i - 1] && ns[i] == ns[1..][i - 1];
    }
  }

  lemma {:induction false} NormValueSavesSame(m: Member, v: Value, g: Value, mk: Maker)
    requires WellFormedMember(m) && TypedValue(m, v) && CleanValue(m, v)
    requires TypedValue(m, g) && FreshValue(m, g) && Makes(mk)
    ensures var n := NormValue(m, v, g, false, mk);
            && TypedValue(m, n) && SaveMember(m, v, false).Some? && SaveMember(m, n, false) == SaveMember(m, v, false)
            && (n.ListValue? <==> v.ListValue?) && (v.ListValue? ==> (n.items == [] <==> v.items == []))
    decreases m
  {
    match m
    case Attr(_, kind, _) => if v.prim.StringVal? { CutIdentity(v.prim.s); }
    case Child(sc) => NormSavesSame(sc, v.obj, g.obj, mk);
    case Collection(sc) => NormListSavesSame(sc, v.items, mk);
  }

  lemma {:induction false} NormListSavesSame(sc: Schema, os: seq<Object>, mk: Maker)
    requires WellFormed(sc) && !sc.wrapper && Makes(mk)
    requires forall o <- os :: Typed(sc, o) && o.valid && Clean(sc, o)
    ensures var ns := NormList(sc, os, false, mk);
            && (forall n <- ns :: Typed(sc, n)) && SaveList(sc, os, false).Some?
            && SaveList(sc, ns, false) == SaveList(sc, os, false) && (ns == [] <==> os == [])
    decreases sc, 1, |os|
  {
    if os != [] {
      NormSavesSame(sc, os[0], mk(sc), mk);
      NormListSavesSame(sc, os[1..], mk);
      var ns := NormList(sc, os, false, mk);
      assert ns[1..] == NormList(sc, os[1..], false, mk);
    }
  }

  /** What toXml is to keep of its valid parts: an object that is left out comes back not
      valid; a written one comes back valid, with equal attributes, with members that survive
      in turn, and with collections of the same length whose items do. */
  predicate Survives(sc: Schema, o: Object, n: Object)
    requires Typed(sc, o)
    decreases sc, 0
  {
    if Omitted(sc, o, false) then !n.valid else n.valid && SurvivesAll(sc.members, o.fields, n.fields)
  }

  predicate SurvivesAll(ms: seq<Member>, fs: seq<Value>, ns: seq<Value>)
    requires TypedAll(ms, fs)
    decreases ms
  {
    |ns| == |fs| && (ms == [] || (SurvivesValue(ms[0], fs[0], ns[0]) && SurvivesAll(ms[1..], fs[1..], ns[1..])))
  }

  predicate SurvivesValue(m: Member, v: Value, n: Value)
    requires TypedValue(m, v)
    decreases m
  {
    match m
    case Attr(_, _, _) => n == v
    case Child(sc) => n.ObjectValue? && Survives(sc, v.obj, n.obj)
    case Collection(sc) => n.ListValue? && ItemsSurvive(sc, v.items, n.items)
  }

  predicate ItemsSurvive(sc: Schema, os: seq<Object>, ns: seq<Object>)
    requires forall o <- os :: Typed(sc, o)
    decreases sc, 1
  {
    |ns| == |os| && forall i :: 0 <= i < |os| ==> Survives(sc, os[i], ns[i])
  }

  /** The normal form of an object that can be saved keeps its valid parts if and only if the
      object is clean. */
  lemma {:induction false} NormSurvives(sc: Schema, o: Object, into: Object, mk: Maker)
    requires WellFormed(sc) && Typed(sc, o) && Save(sc, o, false).Some?
    requires Typed(sc, into) && IsFresh(sc, into) && Makes(mk)
    ensures Survives(sc, o, Norm(sc, o, false, into, mk)) <==> Clean(sc, o)
    decreases sc, 0, 0
  {
    if !Omitted(sc, o, false) {
      NormAllSurvives(sc.members, o.fields, into.fields, mk);
    } else if o.valid {
      EmptyWrapperClean(sc.members, o.fields);
    }
  }

  lemma {:induction false} EmptyWrapperClean(ms: seq<Member>, fs: seq<Value>)
    requires TypedAll(ms, fs) && (forall m <- ms :: m.Collection?) && (forall f <- fs :: f.ListValue? ==> f.items == [])
    ensures CleanAll(ms, fs)
    decreases |ms|
  {
    if ms != [] {
      assert ms[0] in ms && fs[0] in fs;
      EmptyWrapperClean(ms[1..], fs[1..]);
    }
  }

  lemma {:induction false} NormAllSurvives(ms: seq<Member>, fs: seq<Value>, gs: seq<Value>, mk: Maker)
    requires WellFormedAll(ms) && TypedAll(ms, fs) && SaveAll(ms, fs, false).Some?
    requires TypedAll(ms, gs) && FreshAll(ms, gs) && Makes(mk)
    ensures var ns := NormAll(ms, fs, gs, false, mk);
            |ns| == |fs| && (SurvivesAll(ms, fs, ns) <==> CleanAll(ms, fs))
    decreases ms
  {
    if ms != [] {
      NormValueSurvives(ms[0], fs[0], gs[0], mk);
      NormAllSurvives(ms[1..], fs[1..], gs[1..], mk);
      var ns := NormAll(ms, fs, gs, false, mk);
      assert ns[1..] == NormAll(ms[1..], fs[1..], gs[1..], false, mk);
    }
  }

  lemma {:induction false} NormValueSurvives(m: Member, v: Value, g: Value, mk: Maker)
    requires WellFormedMember(m) && TypedValue(m, v) && SaveMember(m, v, false).Some?
    requires TypedValue(m, g) && FreshValue(m, g) && Makes(mk)
    ensures SurvivesValue(m, v, NormValue(m, v, g, false, mk)) <==> CleanValue(m, v)
    decreases m
  {
    match m
    case Attr(_, kind, _) => if v.prim.StringVal? { CutIdentity(v.prim.s); }
    case Child(sc) => NormSurvives(sc, v.obj, g.obj, mk);
    case Collection(sc) => NormListSurvives(sc, v.items, mk);
  }

  lemma ItemsSurviveCons(sc: Schema, os: seq<Object>, ns: seq<Object>)
    requires os != [] && ns != [] && forall o <- os :: Typed(sc, o)
    ensures ItemsSurvive(sc, os, ns) <==> Survives(sc, os[0], ns[0]) && ItemsSurvive(sc, os[1..], ns[1..])
  {
    hide Survives, Typed;
    assert forall i :: 0 <= i < |os| - 1 ==> os[1..][i] == os[i + 1];
    assert forall i :: 0 <= i < |ns| - 1 ==> ns[1..][i] == ns[i + 1];
  }

  /** An item that is not valid is not written, and then the collection is shorter. */
  lemma {:induction false} NormListSurvives(sc: Schema, os: seq<Object>, mk: Maker)
    requires WellFormed(sc) && !sc.wrapper && (forall o <- os :: Typed(sc, o)) && Makes(mk)
    requires SaveList(sc, os, false).Some?
    ensures var ns := NormList(sc, os, false, mk);
            |ns| <= |os| && (ItemsSurvive(sc, os, ns) <==> forall o <- os :: o.valid && Clean(sc, o))
    decreases sc, 1, |os|
  {
    if os != [] {
      NormSurvives(sc, os[0], mk(sc), mk);
      NormListSurvives(sc, os[1..], mk);
      var ns, rest := NormList(sc, os, false, mk), NormList(sc, os[1..], false, mk);
      assert forall o :: o in os <==> o == os[0] || o in os[1..];
      hide Survives, Clean, Norm;
      if os[0].valid {
        assert ns == [ns[0]] + rest;
        ItemsSurviveCons(sc, os, ns);
      } else {
        assert ns == rest;
      }
    }
  }

  /** Saving the valid parts of an object and loading that into a fresh one keeps them all
      if and only if the object is clean. */
  lemma ValidRoundTrip(sc: Schema, o: Object, into: Object, mk: Maker)
    requires WellFormed(sc) && Typed(sc, o) && Typed(sc, into) && Makes(mk) && IsFresh(sc, into)
    requires Save(sc, o, false).Some?
    ensures var r := Load(sc, First(Save(sc, o, false).value), into, mk);
            r.Some? && (Survives(sc, o, r.value) <==> Clean(sc, o))
  {
    RoundTrip(sc, o, false, into, mk);
    NormSurvives(sc, o, into, mk);
  }

  /** For any object that fromXml produced: saving its valid parts and loading that keeps
      them, and saving again writes the same tree. */
  lemma SaveLoadSave(sc: Schema, node: Option<Xml>, into: Object, again: Object, mk: Maker)
    requires WellFormed(sc) && Makes(mk)
    requires Typed(sc, into) && IsFresh(sc, into) && Typed(sc, again) && IsFresh(sc, again)
    requires Load(sc, node, into, mk).Some?
    ensures var o := Load(sc, node, into, mk).value;
            && Typed(sc, o) && Save(sc, o, false).Some?
            && var first := Save(sc, o, false).value;
               var r := Load(sc, First(first), again, mk);
               && r.Some? && Survives(sc, o, r.value)
               && Typed(sc, r.value) && Save(sc, r.value, false) == Some(first)
  {
    LoadClean(sc, node, into, mk);
    var o := Load(sc, node, into, mk).value;
    NormSavesSame(sc, o, again, mk);
    RoundTrip(sc, o, false, again, mk);
    NormSurvives(sc, o, again, mk);
  }
}
