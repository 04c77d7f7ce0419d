/** The XML tree in memory, built and read in place by toXml and fromXml: a node is linked to
    its parent before it is filled. */
module XmlElements {
  import opened Octets
  import opened XmlText
  import opened XmlBinding

  class TiXmlNode {
    const element: bool
    const tag: string
    var attrs: Attrs
    var children: seq<TiXmlNode>
    ghost var repr: set<TiXmlNode>

    /** The nodes below form a tree. */
    ghost predicate Valid()
      reads this, repr
      decreases repr
    {
      && this in repr
      && (forall i :: 0 <= i < |children| ==>
            children[i] in repr && children[i].repr <= repr - {this} && children[i].Valid())
      && (forall i, j :: 0 <= i < j < |children| ==> children[i].repr !! children[j].repr)
    }

    ghost function View(): Xml
      requires Valid()
      reads this, repr
      decreases repr, |children| + 1
    {
      if element then Element(tag, attrs, Views(|children|)) else Other(tag)
    }

    /** The first n children. */
    ghost function Views(n: nat): (xs: seq<Xml>)
      requires Valid() && n <= |children|
      ensures |xs| == n && forall i :: 0 <= i < n ==> xs[i] == children[i].View()
      reads this, repr
      decreases repr, n
    {
      if n == 0 then [] else Views(n - 1) + [children[n - 1].View()]
    }

    ghost function Nodes(): seq<Xml>
      requires Valid()
      reads this, repr
    {
      Views(|children|)
    }

    constructor (tag: string)
      ensures Valid() && repr == {this} && element && this.tag == tag && attrs == [] && children == [] && Nodes() == []
    {
      element, this.tag, attrs, children, repr := true, tag, [], [], {this};
    }

    /** Replaces the value of an attribute, or adds it at the end. */
    method SetAttribute(name: string, value: string)
      requires Valid()
      modifies this`attrs
      ensures Valid() && Nodes() == old(Nodes())
      ensures Attribute(old(attrs), name).None? ==> attrs == old(attrs) + [(name, value)]
      ensures Attribute(old(attrs), name).Some? ==>
                exists i :: 0 <= i < |old(attrs)| && old(attrs)[i].0 == name && attrs == old(attrs)[i := (name, value)]
    {
      var i := 0;
      while i < |attrs|
        invariant 0 <= i <= |attrs| && Attribute(attrs[i..], name) == Attribute(attrs, name)
        invariant attrs == old(attrs)
      {
        assert attrs[i..][0] == attrs[i] && attrs[i..][1..] == attrs[i + 1..];
        if attrs[i].0 == name {
          attrs := attrs[i := (name, value)];
          return;
        }
        i := i + 1;
      }
      attrs := attrs + [(name, value)];
    }

    /** Linking comes before filling: the tree is whole again once the child is. */
    method LinkEndChild(child: TiXmlNode)
      modifies this`children
      ensures children == old(children) + [child]
    {
      children := children + [child];
    }
  }

  twostate lemma Untouched(node: TiXmlNode)
    requires old(node.Valid()) && node in old(node.repr) && forall o :: o in old(node.repr) ==> unchanged(o)
    ensures node.Valid() && node.View() == old(node.View()) && node.repr == old(node.repr)
  {
    hide *;
  }

  /** A node that got one more child, disjoint from what was there, while nothing below it
      changed. */
  twostate lemma Grown(node: TiXmlNode, new child: TiXmlNode)
    requires old(node.Valid()) && child.Valid()
    requires node.children == old(node.children) + [child] && node.repr == old(node.repr) + child.repr
    requires child.repr !! old(node.repr)
    requires forall o :: o in old(node.repr) && o != node ==> unchanged(o)
    ensures node.Valid() && node.Nodes() == old(node.Nodes()) + [child.View()]
  {
    var n := |old(node.children)|;
    assert forall i :: 0 <= i < n ==> node.children[i] == old(node.children)[i];
    assert forall i :: 0 <= i < n ==> old(node.children[i].Valid());
    assert forall i :: 0 <= i < n ==> node.children[i].repr == old(node.children[i].repr);
    assert forall i :: 0 <= i < n ==> node.children[i].Valid();
    assert node.Valid();
    assert forall i :: 0 <= i < n ==> node.children[i].View() == old(node.children[i].View());
  }

  // ---- toXml ----

  ghost predicate NamesFree(attrs: Attrs, ms: seq<Member>) {
    forall i :: 0 <= i < |ms| && ms[i].Attr? ==> Attribute(attrs, ms[i].name).None?
  }

  /** What toXml has written when it returns or when it throws: a node is in the document
      before it is filled, so a save that fails leaves all it came to. */
  function Written(sc: Schema, o: Object, ignoreValid: bool): seq<Xml>
    requires Typed(sc, o)
    decreases sc, 0, 0
  {
    if Omitted(sc, o, ignoreValid) then []
    else
      var c := WrittenAll(sc.members, o.fields, ignoreValid);
      [Element(sc.tag, c.attrs, c.nodes)]
  }

  function WrittenAll(ms: seq<Member>, fs: seq<Value>, ignoreValid: bool): Content
    requires TypedAll(ms, fs)
    decreases ms
  {
    if ms == [] then Content([], [])
    else
      var c := WrittenMember(ms[0], fs[0], ignoreValid);
      if SaveMember(ms[0], fs[0], ignoreValid).None? then c
      else
        var d := WrittenAll(ms[1..], fs[1..], ignoreValid);
        Content(c.attrs + d.attrs, c.nodes + d.nodes)
  }

  function WrittenMember(m: Member, v: Value, ignoreValid: bool): Content
    requires TypedValue(m, v)
    decreases m
  {
    match m
    case Attr(name, kind, _) =>
      var t := ToText(kind, v.prim);
      Content(if t.None? then [] else [(name, t.value)], [])
    case Child(sc) => Content([], Written(sc, v.obj, ignoreValid))
    case Collection(sc) => Content([], WrittenList(sc, v.items, ignoreValid))
  }

  function WrittenList(sc: Schema, os: seq<Object>, ignoreValid: bool): seq<Xml>
    requires forall o <- os :: Typed(sc, o)
    decreases sc, 1, |os|
  {
    if os == [] then []
    else
      Written(sc, os[0], ignoreValid)
      + if Save(sc, os[0], ignoreValid).None? then [] else WrittenList(sc, os[1..], ignoreValid)
  }

  /** A save that does not throw has written what it saves. */
  lemma {:induction false} WrittenIsSaved(sc: Schema, o: Object, ignoreValid: bool)
    requires Typed(sc, o) && Save(sc, o, ignoreValid).Some?
    ensures Written(sc, o, ignoreValid) == Save(sc, o, ignoreValid).value
    decreases sc, 0, 0
  {
    if !Omitted(sc, o, ignoreValid) { WrittenAllSaved(sc.members, o.fields, ignoreValid); }
  }

  lemma {:induction false} WrittenAllSaved(ms: seq<Member>, fs: seq<Value>, ignoreValid: bool)
    requires TypedAll(ms, fs) && SaveAll(ms, fs, ignoreValid).Some?
    ensures WrittenAll(ms, fs, ignoreValid) == SaveAll(ms, fs, ignoreValid).value
    decreases ms
  {
    if ms != [] {
      WrittenMemberSaved(ms[0], fs[0], ignoreValid);
      WrittenAllSaved(ms[1..], fs[1..], ignoreValid);
    }
  }

  lemma {:induction false} WrittenMemberSaved(m: Member, v: Value, ignoreValid: bool)
    requires TypedValue(m, v) && SaveMember(m, v, ignoreValid).Some?
    ensures WrittenMember(m, v, ignoreValid) == SaveMember(m, v, ignoreValid).value
    decreases m
  {
    match m
    case Attr(_, _, _) =>
    case Child(sc) => WrittenIsSaved(sc, v.obj, ignoreValid);
    case Collection(sc) => WrittenListSaved(sc, v.items, ignoreValid);
  }

  lemma {:induction false} WrittenListSaved(sc: Schema, os: seq<Object>, ignoreValid: bool)
    requires (forall o <- os :: Typed(sc, o)) && SaveList(sc, os, ignoreValid).Some?
    ensures WrittenList(sc, os, ignoreValid) == SaveList(sc, os, ignoreValid).value
    decreases sc, 1, |os|
  {
    if os != [] {
      WrittenIsSaved(sc, os[0], ignoreValid);
      WrittenListSaved(sc, os[1..], ignoreValid);
    }
  }

  /** A save that throws has written what the members before the one that throws save, and
      what that one wrote of itself: of an attribute nothing. */
  lemma {:induction false} WrittenUpTo(ms: seq<Member>, fs: seq<Value>, ignoreValid: bool) returns (k: nat)
    requires TypedAll(ms, fs) && SaveAll(ms, fs, ignoreValid).None?
    ensures k < |ms| && TypedAll(ms[..k], fs[..k]) && TypedValue(ms[k], fs[k])
    ensures SaveAll(ms[..k], fs[..k], ignoreValid).Some? && SaveMember(ms[k], fs[k], ignoreValid).None?
    ensures var before, last := SaveAll(ms[..k], fs[..k], ignoreValid).value, WrittenMember(ms[k], fs[k], ignoreValid);
            && WrittenAll(ms, fs, ignoreValid) == Content(before.attrs + last.attrs, before.nodes + last.nodes)
            && (ms[k].Attr? ==> last == Content([], []))
    decreases ms
  {
    var first := SaveMember(ms[0], fs[0], ignoreValid);
    if first.None? {
      k := 0;
      var w := WrittenMember(ms[0], fs[0], ignoreValid);
      assert [] + w.attrs == w.attrs && [] + w.nodes == w.nodes;
    } else {
      WrittenMemberSaved(ms[0], fs[0], ignoreValid);
      var j := WrittenUpTo(ms[1..], fs[1..], ignoreValid);
      k := j + 1;
      assert ms[..k][1..] == ms[1..][..j] && fs[..k][1..] == fs[1..][..j];
      var a, last := SaveAll(ms[1..][..j], fs[1..][..j], ignoreValid).value, WrittenMember(ms[k], fs[k], ignoreValid);
      Regroup(first.value.attrs, a.attrs, last.attrs);
      Regroup(first.value.nodes, a.nodes, last.nodes);
    }
  }

  /** The same of the items of a collection; and the element of an object is linked to its
      parent before it is filled, so it is there also when a member throws. */
  lemma {:induction false} ItemsUpTo(sc: Schema, os: seq<Object>, ignoreValid: bool) returns (k: nat)
    requires (forall o <- os :: Typed(sc, o)) && SaveList(sc, os, ignoreValid).None?
    ensures k < |os| && SaveList(sc, os[..k], ignoreValid).Some? && Save(sc, os[k], ignoreValid).None?
    ensures WrittenList(sc, os, ignoreValid)
            == SaveList(sc, os[..k], ignoreValid).value + Written(sc, os[k], ignoreValid)
    ensures var c := WrittenAll(sc.members, os[k].fields, ignoreValid);
            Written(sc, os[k], ignoreValid) == [Element(sc.tag, c.attrs, c.nodes)]
    decreases |os|
  {
    if Save(sc, os[0], ignoreValid).None? {
      k := 0;
      var w := Written(sc, os[0], ignoreValid);
      assert w + [] == w && [] + w == w;
    } else {
      WrittenIsSaved(sc, os[0], ignoreValid);
      var j := ItemsUpTo(sc, os[1..], ignoreValid);
      k := j + 1;
      assert os[..k][1..] == os[1..][..j];
      Regroup(Save(sc, os[0], ignoreValid).value, SaveList(sc, os[1..][..j], ignoreValid).value,
              Written(sc, os[k], ignoreValid));
    }
  }

  /** Appends what is written to the children of the parent; false where the code throws. */
  method ToXml(sc: Schema, o: Object, parent: TiXmlNode, ignoreValid: bool) returns (ok: bool)
    requires WellFormed(sc) && Typed(sc, o) && parent.Valid()
    modifies parent
    ensures ok == Save(sc, o, ignoreValid).Some?
    ensures parent.Valid() && fresh(parent.repr - old(parent.repr)) && parent.attrs == old(parent.attrs)
    ensures parent.Nodes() == old(parent.Nodes()) + Written(sc, o, ignoreValid)
    decreases sc, 0, 0
  {
    if Omitted(sc, o, ignoreValid) {
      assert parent.Nodes() + [] == parent.Nodes();
      return true;
    }
    ok := WriteElement(sc.tag, sc.members, o.fields, parent, ignoreValid);
  }

  method WriteElement(tag: string, ms: seq<Member>, fs: seq<Value>, parent: TiXmlNode, ignoreValid: bool)
    returns (ok: bool)
    requires WellFormedAll(ms) && TypedAll(ms, fs) && Distinct(ms) && parent.Valid()
    modifies parent
    ensures ok == SaveAll(ms, fs, ignoreValid).Some?
    ensures parent.Valid() && fresh(parent.repr - old(parent.repr)) && parent.attrs == old(parent.attrs)
    ensures var c := WrittenAll(ms, fs, ignoreValid);
            parent.Nodes() == old(parent.Nodes()) + [Element(tag, c.attrs, c.nodes)]
    decreases ms, 1
  {
    hide *;
    NothingTaken(ms);
    var pEm := new TiXmlNode(tag);
    parent.LinkEndChild(pEm);
    ok := WriteMembers(ms, fs, pEm, ignoreValid);
    ghost var c := WrittenAll(ms, fs, ignoreValid);
    assert [] + c.attrs == c.attrs && [] + c.nodes == c.nodes;
    ViewParts(pEm);
    assert pEm.repr !! old(parent.repr) && parent !in pEm.repr;
    label filled:
    parent.repr := parent.repr + pEm.repr;
    Untouched@filled(pEm);
    Grown(parent, pEm);
  }

  lemma NothingTaken(ms: seq<Member>)
    ensures NamesFree([], ms)
  {
  }

  lemma ViewParts(node: TiXmlNode)
    requires node.Valid()
    ensures node in node.repr
    ensures node.View() == if node.element then Element(node.tag, node.attrs, node.Nodes()) else Other(node.tag)
    ensures |node.Nodes()| == |node.children|
    ensures forall i :: 0 <= i < |node.children| ==>
                          node.children[i].Valid() && node.Nodes()[i] == node.children[i].View()
  {
  }

  /** One member after the other, in the order of the class, up to one that throws. */
  method WriteMembers(ms: seq<Member>, fs: seq<Value>, pEm: TiXmlNode, ignoreValid: bool) returns (ok: bool)
    requires WellFormedAll(ms) && TypedAll(ms, fs) && Distinct(ms)
    requires pEm.Valid() && NamesFree(pEm.attrs, ms)
    modifies pEm
    ensures ok == SaveAll(ms, fs, ignoreValid).Some?
    ensures pEm.Valid() && fresh(pEm.repr - old(pEm.repr))
    ensures pEm.attrs == old(pEm.attrs) + WrittenAll(ms, fs, ignoreValid).attrs
    ensures pEm.Nodes() == old(pEm.Nodes()) + WrittenAll(ms, fs, ignoreValid).nodes
    decreases ms, 0
  {
    if ms == [] {
      assert pEm.attrs + [] == pEm.attrs && pEm.Nodes() + [] == pEm.Nodes();
      return true;
    }
    ghost var attrs, nodes := pEm.attrs, pEm.Nodes();
    assert NamesFree(pEm.attrs, [ms[0]]) by { assert [ms[0]][0] == ms[0]; }
    ok := WriteMember(ms[0], fs[0], pEm, ignoreValid);
    if !ok { return; }
    ghost var c := WrittenMember(ms[0], fs[0], ignoreValid);
    OneNameLess(attrs, ms, fs[0], ignoreValid);
    ok := WriteMembers(ms[1..], fs[1..], pEm, ignoreValid);
    ghost var rest := WrittenAll(ms[1..], fs[1..], ignoreValid);
    Regroup(attrs, c.attrs, rest.attrs);
    Regroup(nodes, c.nodes, rest.nodes);
  }

  lemma Regroup<T>(a: seq<T>, b: seq<T>, c: seq<T>)
    ensures a + (b + c) == a + b + c
  {
  }

  /** Writing a member leaves the names of the later ones free. */
  lemma OneNameLess(attrs: Attrs, ms: seq<Member>, v: Value, ignoreValid: bool)
    requires ms != [] && Distinct(ms) && NamesFree(attrs, ms) && TypedValue(ms[0], v)
    ensures NamesFree(attrs + WrittenMember(ms[0], v, ignoreValid).attrs, ms[1..])
  {
    var more, later := WrittenMember(ms[0], v, ignoreValid).attrs, ms[1..];
    forall j | 0 <= j < |later| && later[j].Attr?
      ensures Attribute(attrs + more, later[j].name).None?
    {
      assert later[j] == ms[j + 1] && !Clash(ms[0], ms[j + 1]);
      AttributeAppend(attrs, more, later[j].name);
    }
  }

  method WriteMember(m: Member, v: Value, pEm: TiXmlNode, ignoreValid: bool) returns (ok: bool)
    requires WellFormedMember(m) && TypedValue(m, v) && pEm.Valid() && NamesFree(pEm.attrs, [m])
    modifies pEm
    ensures ok == SaveMember(m, v, ignoreValid).Some?
    ensures pEm.Valid() && fresh(pEm.repr - old(pEm.repr))
    ensures pEm.attrs == old(pEm.attrs) + WrittenMember(m, v, ignoreValid).attrs
    ensures pEm.Nodes() == old(pEm.Nodes()) + WrittenMember(m, v, ignoreValid).nodes
    decreases m
  {
    assert pEm.attrs + [] == pEm.attrs && pEm.Nodes() + [] == pEm.Nodes();
    match m
    case Attr(name, kind, _) =>
      var text := ToText(kind, v.prim);
      if text.None? { return false; }
      assert [m][0].Attr? && [m][0].name == name;
      pEm.SetAttribute(name, text.value);
      ok := true;
    case Child(sc) =>
      ok := ToXml(sc, v.obj, pEm, ignoreValid);
    case Collection(sc) =>
      ok := WriteList(sc, v.items, pEm, ignoreValid);
  }

  /** The items written so far, followed by those to be written, are the whole. */
  ghost predicate Writes(sc: Schema, start: seq<Xml>, now: seq<Xml>, os: seq<Object>, i: nat, ignoreValid: bool)
    requires (forall o <- os :: Typed(sc, o)) && i <= |os|
  {
    && (SaveList(sc, os, ignoreValid).Some? <==> SaveList(sc, os[i..], ignoreValid).Some?)
    && start + WrittenList(sc, os, ignoreValid) == now + WrittenList(sc, os[i..], ignoreValid)
  }

  lemma ItemWrites(sc: Schema, start: seq<Xml>, now: seq<Xml>, os: seq<Object>, i: nat, ignoreValid: bool)
    requires (forall o <- os :: Typed(sc, o)) && i < |os| && Writes(sc, start, now, os, i, ignoreValid)
    ensures var after := now + Written(sc, os[i], ignoreValid);
            if Save(sc, os[i], ignoreValid).Some? then Writes(sc, start, after, os, i + 1, ignoreValid)
            else SaveList(sc, os, ignoreValid).None? && after == start + WrittenList(sc, os, ignoreValid)
  {
    assert os[i..][0] == os[i] && os[i..][1..] == os[i + 1..];
    var x := Written(sc, os[i], ignoreValid);
    assert x + [] == x;
    Regroup(now, x, WrittenList(sc, os[i + 1..], ignoreValid));
  }

  lemma WritesBounds(sc: Schema, start: seq<Xml>, os: seq<Object>, now: seq<Xml>, ignoreValid: bool)
    requires forall o <- os :: Typed(sc, o)
    ensures Writes(sc, start, start, os, 0, ignoreValid)
    ensures Writes(sc, start, now, os, |os|, ignoreValid) ==>
              SaveList(sc, os, ignoreValid).Some? && now == start + WrittenList(sc, os, ignoreValid)
  {
    assert os[0..] == os && os[|os|..] == [] && now + [] == now;
  }

  /** The items of a collection one after the other, up to one that throws. */
  method WriteList(sc: Schema, os: seq<Object>, parent: TiXmlNode, ignoreValid: bool) returns (ok: bool)
    requires WellFormed(sc) && (forall o <- os :: Typed(sc, o)) && parent.Valid()
    modifies parent
    ensures ok == SaveList(sc, os, ignoreValid).Some?
    ensures parent.Valid() && fresh(parent.repr - old(parent.repr)) && parent.attrs == old(parent.attrs)
    ensures parent.Nodes() == old(parent.Nodes()) + WrittenList(sc, os, ignoreValid)
    decreases sc, 1, |os|
  {
    hide *;
    ghost var start := parent.Nodes();
    var i := 0;
    ok := true;
    WritesBounds(sc, start, os, start, ignoreValid);
    while i < |os|
      invariant 0 <= i <= |os| && ok && parent.Valid()
      invariant fresh(parent.repr - old(parent.repr)) && parent.attrs == old(parent.attrs)
      invariant Writes(sc, start, parent.Nodes(), os, i, ignoreValid)
    {
      assert os[i] in os;
      ItemWrites(sc, start, parent.Nodes(), os, i, ignoreValid);
      ok := ToXml(sc, os[i], parent, ignoreValid);
      if !ok { return; }
      i := i + 1;
    }
    WritesBounds(sc, start, os, parent.Nodes(), ignoreValid);
  }

  // ---- fromXml ----

  /** Position i holds the first node with the tag at or behind from, or is the end. */
  ghost predicate Found(nodes: seq<Xml>, tag: string, from: nat, i: nat) {
    && from <= i <= |nodes|
    && ChildrenNamed(nodes[from..], tag) == if i == |nodes| then [] else [nodes[i]] + ChildrenNamed(nodes[i + 1..], tag)
  }

  /** The position of the next child with the tag, or the number of children:
      FirstChildElement from 0, NextSiblingElement from behind the last one found. */
  method NextElement(node: TiXmlNode, tag: string, from: nat) returns (i: nat)
    requires node.Valid() && from <= |node.children|
    ensures from <= i <= |node.children|
    ensures i < |node.children| ==> node.children[i].element && node.children[i].tag == tag
    ensures Found(node.Nodes(), tag, from, i)
  {
    i := from;
    while i < |node.children|
      invariant from <= i <= |node.children|
      invariant ChildrenNamed(node.Nodes()[from..], tag) == ChildrenNamed(node.Nodes()[i..], tag)
    {
      ghost var nodes := node.Nodes()[i..];
      assert nodes[0] == node.children[i].View() && nodes[1..] == node.Nodes()[i + 1..];
      if node.children[i].element && node.children[i].tag == tag { return; }
      assert [] + ChildrenNamed(nodes[1..], tag) == ChildrenNamed(nodes[1..], tag);
      i := i + 1;
    }
  }

  method FindAttribute(attrs: Attrs, name: string) returns (r: Option<string>)
    ensures r == Attribute(attrs, name)
  {
    var i := 0;
    while i < |attrs|
      invariant 0 <= i <= |attrs| && Attribute(attrs[i..], name) == Attribute(attrs, name)
    {
      assert attrs[i..][0] == attrs[i] && attrs[i..][1..] == attrs[i + 1..];
      if attrs[i].0 == name { return Some(Cut(attrs[i].1)); }
      i := i + 1;
    }
    r := None;
  }

  /** Reads a node, if there is one, into an object; None where the code throws. */
  method FromXml(sc: Schema, node: TiXmlNode?, into: Object, mk: Maker) returns (r: Option<Object>)
    requires Typed(sc, into) && Makes(mk) && (node != null ==> node.Valid())
    ensures r == Load(sc, if node == null then None else Some(node.View()), into, mk)
    decreases sc, 0, 0
  {
    if node == null { return Some(into); }
    if !node.element { return None; }
    var fs := ReadMembers(sc.members, node, into.fields, mk);
    r := if fs.None? then None else Some(Object(true, fs.value));
  }

  method ReadMembers(ms: seq<Member>, node: TiXmlNode, fs: seq<Value>, mk: Maker) returns (r: Option<seq<Value>>)
    requires TypedAll(ms, fs) && Makes(mk) && node.Valid() && node.element
    ensures r == LoadAll(ms, node.View(), fs, mk)
    decreases ms
  {
    if ms == [] { return Some([]); }
    var v := ReadMember(ms[0], node, fs[0], mk);
    if v.None? { return None; }
    var vs := ReadMembers(ms[1..], node, fs[1..], mk);
    r := if vs.None? then None else Some([v.value] + vs.value);
  }

  method ReadMember(m: Member, node: TiXmlNode, v: Value, mk: Maker) returns (r: Option<Value>)
    requires TypedValue(m, v) && Makes(mk) && node.Valid() && node.element
    ensures r == LoadMember(m, node.View(), v, mk)
    decreases m
  {
    match m
    case Attr(name, kind, default) =>
      var raw := FindAttribute(node.attrs, name);
      if raw.None? && default.Some? { return Some(PrimValue(default.value)); }
      var p := FromText(kind, raw);
      r := if p.None? then None else Some(PrimValue(p.value));
    case Child(sc) =>
      var o := ReadChild(sc, node, v.obj, mk);
      r := if o.None? then None else Some(ObjectValue(o.value));
    case Collection(sc) =>
      var os := ReadCollection(sc, node, mk);
      r := if os.None? then None else Some(ListValue(v.items + os.value));
  }

  method ReadChild(sc: Schema, node: TiXmlNode, into: Object, mk: Maker) returns (r: Option<Object>)
    requires Typed(sc, into) && Makes(mk) && node.Valid() && node.element
    ensures r == Load(sc, FirstChildElement(node.Nodes(), sc.tag), into, mk)
    decreases sc, 1
  {
    hide *;
    ViewParts(node);
    var i := NextElement(node, sc.tag, 0);
    FoundFirst(node.Nodes(), sc.tag, i);
    r := FromXml(sc, if i < |node.children| then node.children[i] else null, into, mk);
  }

  lemma FoundFirst(nodes: seq<Xml>, tag: string, i: nat)
    requires Found(nodes, tag, 0, i)
    ensures i <= |nodes| && FirstChildElement(nodes, tag) == if i == |nodes| then None else Some(nodes[i])
  {
    assert nodes[0..] == nodes;
  }

  /** The items read so far, followed by those of the nodes from a position on, are all. */
  ghost predicate Reads(all: Option<seq<Object>>, items: seq<Object>, sc: Schema, nodes: seq<Xml>, from: nat, mk: Maker)
    requires Makes(mk)
  {
    from <= |nodes| &&
    var rest := LoadList(sc, ChildrenNamed(nodes[from..], sc.tag), mk);
    if rest.None? then all.None? else all == Some(items + rest.value)
  }

  lemma ItemReads(all: Option<seq<Object>>, items: seq<Object>, sc: Schema, nodes: seq<Xml>,
      from: nat, i: nat, mk: Maker)
    requires Makes(mk) && Found(nodes, sc.tag, from, i) && i < |nodes| && Reads(all, items, sc, nodes, from, mk)
    ensures Typed(sc, mk(sc))
    ensures var o := Load(sc, Some(nodes[i]), mk(sc), mk);
            if o.None? then all.None? else Reads(all, items + [o.value], sc, nodes, i + 1, mk)
  {
    var named := ChildrenNamed(nodes[from..], sc.tag);
    assert named[0] == nodes[i] && named[1..] == ChildrenNamed(nodes[i + 1..], sc.tag);
    var o, rest := Load(sc, Some(named[0]), mk(sc), mk), LoadList(sc, named[1..], mk);
    if o.Some? && rest.Some? { Regroup(items, [o.value], rest.value); }
  }

  /** A new item for each child with the tag, in order. */
  method ReadCollection(sc: Schema, node: TiXmlNode, mk: Maker) returns (r: Option<seq<Object>>)
    requires Makes(mk) && node.Valid() && node.element
    ensures r == LoadList(sc, ChildrenNamed(node.Nodes(), sc.tag), mk)
    decreases sc, 1, 0
  {
    hide *;
    ghost var all, nodes := LoadList(sc, ChildrenNamed(node.Nodes(), sc.tag), mk), node.Nodes();
    StartReading(sc, nodes, mk);
    ViewParts(node);
    r := Some([]);
    var i := NextElement(node, sc.tag, 0);
    ghost var from := 0;
    while i < |node.children|
      invariant 0 <= i <= |node.children| && r.Some?
      invariant Found(nodes, sc.tag, from, i) && Reads(all, r.value, sc, nodes, from, mk)
      decreases |node.children| - i
    {
      ItemReads(all, r.value, sc, nodes, from, i, mk);
      var item := FromXml(sc, node.children[i], mk(sc), mk);
      if item.None? { return None; }
      r := Some(r.value + [item.value]);
      from := i + 1;
      i := NextElement(node, sc.tag, i + 1);
    }
    DoneReading(all, r.value, sc, nodes, from, i, mk);
  }

  lemma StartReading(sc: Schema, nodes: seq<Xml>, mk: Maker)
    requires Makes(mk)
    ensures Reads(LoadList(sc, ChildrenNamed(nodes, sc.tag), mk), [], sc, nodes, 0, mk)
  {
    assert nodes[0..] == nodes;
    var all := LoadList(sc, ChildrenNamed(nodes, sc.tag), mk);
    assert all.Some? ==> [] + all.value == all.value;
  }

  lemma DoneReading(all: Option<seq<Object>>, items: seq<Object>, sc: Schema, nodes: seq<Xml>,
      from: nat, i: nat, mk: Maker)
    requires Makes(mk) && Found(nodes, sc.tag, from, i) && i == |nodes| && Reads(all, items, sc, nodes, from, mk)
    ensures all == Some(items)
  {
    assert items + [] == items;
  }

  /** Written into an empty document and read back from it: the same data exactly when no
      text holds a NUL. */
  method WriteAndRead(sc: Schema, o: Object, into: Object, mk: Maker) returns (r: Option<Object>)
    requires WellFormed(sc) && Typed(sc, o) && EnumsValid(sc, o)
    requires Typed(sc, into) && IsFresh(sc, into) && Makes(mk)
    ensures r.Some? && (SameData(sc, o, r.value) <==> NulFree(sc, o))
  {
    hide WellFormed, Typed, IsFresh, Makes, EnumsValid, SameData, NulFree, Save, Load;
    var doc := new TiXmlNode("");
    FullRoundTrip(sc, o, into, mk);
    var ok := ToXml(sc, o, doc, true);
    WrittenIsSaved(sc, o, true);
    assert [] + Save(sc, o, true).value == Save(sc, o, true).value;
    r := FromXml(sc, if 0 < |doc.children| then doc.children[0] else null, into, mk);
  }
}
