/**
 * `jacz.util.io.xml.Element`: a mutable XML DOM node with a name, a parent link,
 * attributes, an ordered child list and optional text. A node never holds both text
 * and children: each operation that would break this throws IllegalStateException.
 */
module Xml {
  import opened Optional

  /** Whether an operation completed or threw IllegalStateException. */
  datatype Outcome = Success | IllegalStateException

  /** Every attribute in `wanted` is present in `have` with an equal value (extra ones allowed). */
  predicate Matches(wanted: map<string, string>, have: map<string, string>) {
    forall a :: a in wanted ==> a in have && have[a] == wanted[a]
  }

  /** The elements of `cs` named `n`, in order. */
  function Named(cs: seq<Element>, n: string): seq<Element> {
    if cs == [] then []
    else Named(cs[..|cs| - 1], n) + (if cs[|cs| - 1].name == n then [cs[|cs| - 1]] else [])
  }

  /** The elements of `cs` named `n` whose attributes match `wanted`, in order. */
  ghost function Selected(cs: seq<Element>, n: string, wanted: map<string, string>): seq<Element>
    reads cs
  {
    if cs == [] then []
    else
      var last := cs[|cs| - 1];
      Selected(cs[..|cs| - 1], n, wanted)
        + (if last.name == n && Matches(wanted, last.attributes) then [last] else [])
  }

  /** `getChildren(name)` keeps exactly the children with that name, each as often as it occurs. */
  lemma {:induction false} NamedExactly(cs: seq<Element>, n: string)
    ensures forall c :: c in Named(cs, n) <==> c in cs && c.name == n
    ensures forall c: Element :: multiset(Named(cs, n))[c] == if c.name == n then multiset(cs)[c] else 0
  {
    if cs != [] {
      var init := cs[..|cs| - 1];
      NamedExactly(init, n);
      assert cs == init + [cs[|cs| - 1]];
    }
  }

  /** The children that `getChildren(name)` keeps: those with that name. */
  lemma {:induction false} NamedMembers(cs: seq<Element>, n: string)
    ensures forall c :: c in Named(cs, n) <==> c in cs && c.name == n
  {
    if cs != [] {
      var init := cs[..|cs| - 1];
      NamedMembers(init, n);
      assert cs == init + [cs[|cs| - 1]];
    }
  }

  /** The first element of `Named(cs, n)` is the first element of `cs` named `n`. */
  lemma {:induction false} NamedFirst(cs: seq<Element>, n: string)
    requires Named(cs, n) != []
    ensures exists k :: 0 <= k < |cs| && cs[k] == Named(cs, n)[0] && cs[k].name == n
                        && (forall j :: 0 <= j < k ==> cs[j].name != n)
  {
    var init := cs[..|cs| - 1];
    if Named(init, n) == [] {
      NamedMembers(init, n);
      var k := |cs| - 1;
      assert cs[k] == Named(cs, n)[0];
      forall j | 0 <= j < k
        ensures cs[j].name != n
      {
        assert cs[j] == init[j];
        assert init[j] in init;
      }
    } else {
      NamedFirst(init, n);
      var k :| 0 <= k < |init| && init[k] == Named(init, n)[0] && init[k].name == n
               && (forall j :: 0 <= j < k ==> init[j].name != n);
      assert cs[k] == init[k];
      forall j | 0 <= j < k
        ensures cs[j].name != n
      {
        assert cs[j] == init[j];
      }
    }
  }

  /** The children that `getChildren(name, attributes)` keeps: those with that name and matching attributes. */
  lemma {:induction false} SelectedMembers(cs: seq<Element>, n: string, wanted: map<string, string>)
    ensures forall c :: c in Selected(cs, n, wanted) <==>
      c in cs && c.name == n && Matches(wanted, c.attributes)
  {
    if cs != [] {
      var init := cs[..|cs| - 1];
      SelectedMembers(init, n, wanted);
      assert cs == init + [cs[|cs| - 1]];
    }
  }

  /** One more element at the end of the list is kept exactly when it qualifies. */
  lemma SelectedSnoc(cs: seq<Element>, x: Element, n: string, wanted: map<string, string>)
    ensures Selected(cs + [x], n, wanted)
      == Selected(cs, n, wanted) + (if x.name == n && Matches(wanted, x.attributes) then [x] else [])
  {
    assert (cs + [x])[..|cs|] == cs;
  }

  /** `getChildren(name, attributes)` keeps each qualifying child as often as it occurs, and no other. */
  lemma {:induction false} SelectedCounts(cs: seq<Element>, n: string, wanted: map<string, string>)
    ensures forall c: Element ::
      multiset(Selected(cs, n, wanted))[c] == (if c.name == n && Matches(wanted, c.attributes) then multiset(cs)[c] else 0)
  {
    if cs != [] {
      var init, last := cs[..|cs| - 1], cs[|cs| - 1];
      SelectedCounts(init, n, wanted);
      var tail := if last.name == n && Matches(wanted, last.attributes) then [last] else [];
      assert cs == init + [last];
      assert multiset(cs) == multiset(init) + multiset{last};
      assert multiset(Selected(cs, n, wanted)) == multiset(Selected(init, n, wanted)) + multiset(tail);
    }
  }

  /** `getChildren(name, attributes)` keeps exactly the children with that name and matching attributes, each as often as it occurs. */
  lemma SelectedExactly(cs: seq<Element>, n: string, wanted: map<string, string>)
    ensures forall c :: c in Selected(cs, n, wanted) <==>
      c in cs && c.name == n && Matches(wanted, c.attributes)
    ensures forall c: Element ::
      multiset(Selected(cs, n, wanted))[c] == (if c.name == n && Matches(wanted, c.attributes) then multiset(cs)[c] else 0)
  {
    SelectedMembers(cs, n, wanted);
    SelectedCounts(cs, n, wanted);
  }

  /** The first element of `Selected(cs, n, wanted)` is the first element of `cs` that qualifies. */
  lemma {:induction false} SelectedFirst(cs: seq<Element>, n: string, wanted: map<string, string>)
    requires Selected(cs, n, wanted) != []
    ensures exists k :: 0 <= k < |cs| && cs[k] == Selected(cs, n, wanted)[0]
                        && cs[k].name == n && Matches(wanted, cs[k].attributes)
                        && (forall j :: 0 <= j < k ==> !(cs[j].name == n && Matches(wanted, cs[j].attributes)))
  {
    var init := cs[..|cs| - 1];
    if Selected(init, n, wanted) == [] {
      SelectedMembers(init, n, wanted);
      var k := |cs| - 1;
      forall j | 0 <= j < k
        ensures !(cs[j].name == n && Matches(wanted, cs[j].attributes))
      {
        assert cs[j] == init[j];
        assert init[j] in init;
      }
    } else {
      SelectedFirst(init, n, wanted);
      var k :| 0 <= k < |init| && init[k] == Selected(init, n, wanted)[0]
               && init[k].name == n && Matches(wanted, init[k].attributes)
               && (forall j :: 0 <= j < k ==> !(init[j].name == n && Matches(wanted, init[j].attributes)));
      assert cs[k] == init[k];
      forall j | 0 <= j < k
        ensures !(cs[j].name == n && Matches(wanted, cs[j].attributes))
      {
        assert cs[j] == init[j];
      }
    }
  }

  class Element {
    const name: string
    var parent: Element?
    var attributes: map<string, string>
    var children: seq<Element>
    /** `None` stands for null text. */
    var text: Option<string>

    /** The node never has both text and children. */
    ghost predicate Valid()
      reads this
    {
      text.Some? ==> children == []
    }

    /** `Element(name)`: a detached node with no attributes, children or text. */
    constructor (name: string)
      ensures Valid()
      ensures this.name == name && parent == null
      ensures attributes == map[] && children == [] && text == None
    {
      this.name := name;
      parent := null;
      attributes := map[];
      children := [];
      text := None;
    }

    /**
     * `Element(name, parent)`: the new node points at `parent` and is appended to its
     * children; when the parent holds text, `addChild` throws after the node was built.
     */
    static method NewWithParent(name: string, parent: Element?) returns (e: Element, status: Outcome)
      requires parent != null ==> parent.Valid()
      modifies parent
      ensures fresh(e) && e.Valid()
      ensures e.name == name && e.parent == parent
      ensures e.attributes == map[] && e.children == [] && e.text == None
      ensures status == if parent != null && old(parent.text).Some? then IllegalStateException else Success
      ensures parent != null ==> parent.Valid()
      ensures parent != null ==>
                parent.children == if status == Success then old(parent.children) + [e] else old(parent.children)
      ensures parent != null ==> parent.text == old(parent.text) && parent.attributes == old(parent.attributes)
      ensures parent != null ==> parent.parent == old(parent.parent)
    {
      e := new Element(name);
      e.parent := parent;
      status := Success;
      if parent != null {
        status := parent.AddChild(e);
      }
    }

    /** `getAttributeValue`: the value stored under `n`, or null. */
    function GetAttributeValue(n: string): (v: Option<string>)
      reads this
      ensures v.Some? <==> n in attributes
      ensures v.Some? ==> attributes[n] == v.value
    {
      if n in attributes then Some(attributes[n]) else None
    }

    /** `putAttribute`: afterwards `n` reads back as `v` and every other attribute is unchanged. */
    method PutAttribute(n: string, v: string)
      requires Valid()
      modifies this
      ensures Valid()
      ensures GetAttributeValue(n) == Some(v)
      ensures forall m :: m != n ==> GetAttributeValue(m) == old(GetAttributeValue(m))
      ensures attributes == old(attributes)[n := v]
      ensures parent == old(parent) && children == old(children) && text == old(text)
    {
      attributes := attributes[n := v];
    }

    /** `addChild`: appends `child` last and makes this node its parent; throws when this node has text. */
    method AddChild(child: Element) returns (status: Outcome)
      requires Valid()
      modifies this, child`parent
      ensures Valid()
      ensures status == if old(text).Some? then IllegalStateException else Success
      ensures status == Success ==> children == old(children) + [child] && child.parent == this
      ensures status == IllegalStateException ==> children == old(children) && child.parent == old(child.parent)
      ensures text == old(text) && attributes == old(attributes)
      ensures child != this ==> parent == old(parent)
    {
      if text.Some? {
        return IllegalStateException;
      }
      children := children + [child];
      child.parent := this;
      status := Success;
    }

    /**
     * `setChildren`: replaces the child list (null gives an empty list); a non-empty list
     * is refused when this node has text. The new children's parent links are not touched.
     */
    method SetChildren(cs: Option<seq<Element>>) returns (status: Outcome)
      requires Valid()
      modifies this
      ensures Valid()
      ensures status == if cs.Some? && cs.value != [] && old(text).Some? then IllegalStateException else Success
      ensures children == if status == IllegalStateException then old(children)
        else if cs.None? then [] else cs.value
      ensures text == old(text) && attributes == old(attributes) && parent == old(parent)
    {
      if cs.Some? && cs.value != [] && text.Some? {
        return IllegalStateException;
      }
      children := if cs.None? then [] else cs.value;
      status := Success;
    }

    /** `clearChildren`. */
    method ClearChildren()
      requires Valid()
      modifies this
      ensures Valid()
      ensures children == []
      ensures text == old(text) && attributes == old(attributes) && parent == old(parent)
    {
      children := [];
    }

    /** `setText`: refused whenever this node has children, whatever the new text is. */
    method SetText(t: Option<string>) returns (status: Outcome)
      requires Valid()
      modifies this
      ensures Valid()
      ensures status == if old(children) != [] then IllegalStateException else Success
      ensures text == if status == Success then t else old(text)
      ensures children == old(children) && attributes == old(attributes) && parent == old(parent)
    {
      if children != [] {
        return IllegalStateException;
      }
      text := t;
      status := Success;
    }

    /** `clearText`. */
    method ClearText()
      requires Valid()
      modifies this
      ensures Valid()
      ensures text == None
      ensures children == old(children) && attributes == old(attributes) && parent == old(parent)
    {
      text := None;
    }

    /** `getChildren()`: the children in order, as a value detached from this node. */
    method GetChildren() returns (r: seq<Element>)
      ensures |r| == |children| && forall k :: 0 <= k < |r| ==> r[k] == children[k]
    {
      r := [];
      for k := 0 to |children|
        invariant r == children[..k]
      {
        r := r + [children[k]];
      }
    }

    /** `getChildren(name)`: exactly the children named `name`, in insertion order. */
    method GetChildrenNamed(n: string) returns (r: seq<Element>)
      ensures r == Named(children, n)
      ensures forall c :: c in r <==> c in children && c.name == n
    {
      r := [];
      for k := 0 to |children|
        invariant r == Named(children[..k], n)
      {
        assert children[..k + 1][..k] == children[..k];
        if children[k].name == n {
          r := r + [children[k]];
        }
      }
      assert children[..|children|] == children;
      NamedMembers(children, n);
    }

    /** `compareAttributes`: every wanted attribute exists on `e` with an equal value. */
    static method CompareAttributes(e: Element, wanted: map<string, string>) returns (b: bool)
      ensures b <==> Matches(wanted, e.attributes)
    {
      var keys := wanted.Keys;
      while keys != {}
        invariant keys <= wanted.Keys
        invariant forall a :: a in wanted && a !in keys ==> a in e.attributes && e.attributes[a] == wanted[a]
        decreases keys
      {
        var a :| a in keys;
        if a !in e.attributes || e.attributes[a] != wanted[a] {
          return false;
        }
        keys := keys - {a};
      }
      return true;
    }

    /** `getChildren(name, attributes)`: the children named `name` whose attributes match, in order. */
    method GetChildrenMatching(n: string, wanted: map<string, string>) returns (r: seq<Element>)
      ensures r == Selected(children, n, wanted)
      ensures forall c :: c in r <==> c in children && c.name == n && Matches(wanted, c.attributes)
    {
      r := [];
      for k := 0 to |children|
        invariant r == Selected(children[..k], n, wanted)
      {
        var child := children[k];
        var same := CompareAttributes(child, wanted);
        if child.name == n && same {
          r := r + [child];
        }
        assert children[..k + 1] == children[..k] + [child];
        SelectedSnoc(children[..k], child, n, wanted);
      }
      assert children[..|children|] == children;
      assert forall c :: c in r <==> c in children && c.name == n && Matches(wanted, c.attributes) by {
        SelectedMembers(children, n, wanted);
      }
    }

    /** `getChild(name)`: the first child named `name`, or null when there is none. */
    method GetChild(n: string) returns (r: Element?)
      ensures r == null <==> forall c :: c in children ==> c.name != n
      ensures r != null ==>
                exists k :: 0 <= k < |children| && children[k] == r && r.name == n
                            && (forall j :: 0 <= j < k ==> children[j].name != n)
    {
      var named := GetChildrenNamed(n);
      if named == [] {
        return null;
      }
      NamedFirst(children, n);
      return named[0];
    }

    /** `getChild(name, attributes)`: the first child that `getChildren(name, attributes)` keeps, or null. */
    method GetChildMatching(n: string, wanted: map<string, string>) returns (r: Element?)
      ensures r == null <==> forall c :: c in children ==> !(c.name == n && Matches(wanted, c.attributes))
      ensures r != null ==>
                exists k :: 0 <= k < |children| && children[k] == r
                            && r.name == n && Matches(wanted, r.attributes)
                            && (forall j :: 0 <= j < k ==> !(children[j].name == n && Matches(wanted, children[j].attributes)))
    {
      var selected := GetChildrenMatching(n, wanted);
      if selected == [] {
        return null;
      }
      SelectedFirst(children, n, wanted);
      return selected[0];
    }
  }
}
