/** The part of the browser document the content script touches: the
    root element's declared `color-scheme`, the elements it creates or looks
    up (each with an `id` and a text content), the children of `<head>`, and
    the computed background colours of `<body>` and `<html>`.

    Elements live in a node table, `nodes`; an element is referred to by its
    index there (a handle), so that an element detached from the head is
    still the same element.  Creating an element appends to the table. */
module Dom {
  import opened Wrappers

  datatype Element = Element(id: string, text: string)

  datatype Page = Page(
    colorScheme: string,            // document.documentElement.style.colorScheme
    nodes: seq<Element>,            // every element ever created, by handle
    head: seq<nat>,                 // handles of the children of <head>, in order
    bodyBackground: Option<string>, // computed background of <body>; None: no body yet
    htmlBackground: string)         // computed background of <html>

  /** Every handle in `head` names an element of the table. */
  predicate InTable(nodes: seq<Element>, head: seq<nat>)
  {
    forall i :: 0 <= i < |head| ==> head[i] < |nodes|
  }

  /** Every child of the head is an element of the table. */
  predicate WellFormed(p: Page)
  {
    InTable(p.nodes, p.head)
  }

  /** `document.getElementById(id)`: the first element of the head, in
      document order, carrying `id`. */
  function FindById(nodes: seq<Element>, head: seq<nat>, id: string): (r: Option<nat>)
    requires InTable(nodes, head)
    ensures r.Some? ==> r.value in head && nodes[r.value].id == id
    ensures r.None? <==> forall i :: 0 <= i < |head| ==> nodes[head[i]].id != id
  {
    if head == [] then None
    else if nodes[head[0]].id == id then Some(head[0])
    else FindById(nodes, head[1..], id)
  }

  /** The head with every occurrence of `h` taken out, the rest in order
      (what `Node.remove()` and the first half of `appendChild` do). */
  function Detached(head: seq<nat>, h: nat): (r: seq<nat>)
    ensures forall x :: x in r <==> x in head && x != h
    ensures |r| <= |head|
    ensures h !in head ==> r == head
  {
    if head == [] then []
    else (if head[0] == h then [] else [head[0]]) + Detached(head[1..], h)
  }

  /** How many children of the head carry `id`. */
  function CountId(nodes: seq<Element>, head: seq<nat>, id: string): (n: nat)
    requires InTable(nodes, head)
    ensures n <= |head|
    ensures n == 0 <==> FindById(nodes, head, id).None?
  {
    if head == [] then 0
    else (if nodes[head[0]].id == id then 1 else 0) + CountId(nodes, head[1..], id)
  }

  // ---------------------------------------------------------------------
  // The DOM operations the script performs, on values.

  /** `document.createElement('style')`: a new, detached element. */
  function Created(p: Page): (r: Page)
    ensures |r.nodes| == |p.nodes| + 1 && r.nodes[..|p.nodes|] == p.nodes
    ensures r.nodes[|p.nodes|] == Element("", "")
    ensures r.head == p.head && r.colorScheme == p.colorScheme
    ensures r.bodyBackground == p.bodyBackground && r.htmlBackground == p.htmlBackground
  {
    p.(nodes := p.nodes + [Element("", "")])
  }

  /** `el.id = id`. */
  function WithId(p: Page, h: nat, id: string): Page
    requires h < |p.nodes|
  {
    p.(nodes := p.nodes[h := p.nodes[h].(id := id)])
  }

  /** `el.textContent = text`. */
  function WithText(p: Page, h: nat, text: string): Page
    requires h < |p.nodes|
  {
    p.(nodes := p.nodes[h := p.nodes[h].(text := text)])
  }

  /** `document.head.appendChild(el)`: moves `el` to the end of the head. */
  function Appended(p: Page, h: nat): (r: Page)
    requires h < |p.nodes|
    ensures r.head != [] && r.head[|r.head| - 1] == h
    ensures forall x :: x in r.head <==> x in p.head || x == h
    ensures h !in p.head ==> r.head == p.head + [h]
    ensures WellFormed(p) ==> WellFormed(r)
  {
    DetachedInTable(p.nodes, p.head, h);
    p.(head := Detached(p.head, h) + [h])
  }

  /** `el.remove()`: detaches `el`, if attached. */
  function Removed(p: Page, h: nat): (r: Page)
    ensures h !in r.head
    ensures forall x :: x != h ==> (x in r.head <==> x in p.head)
    ensures WellFormed(p) ==> WellFormed(r)
  {
    DetachedInTable(p.nodes, p.head, h);
    p.(head := Detached(p.head, h))
  }

  function WithColorScheme(p: Page, scheme: string): Page
  {
    p.(colorScheme := scheme)
  }

  // ---------------------------------------------------------------------
  // Lemmas

  lemma {:induction false} DetachedInTable(nodes: seq<Element>, head: seq<nat>, h: nat)
    ensures InTable(nodes, head) ==> InTable(nodes, Detached(head, h))
  {
    if head != [] && InTable(nodes, head) {
      DetachedInTable(nodes, head[1..], h);
    }
  }

  /** Detaching `h` removes every occurrence of `h` and keeps every other
      child as many times as before. */
  lemma {:induction false} DetachedCounts(head: seq<nat>, h: nat)
    ensures multiset(Detached(head, h)) == multiset(head)[h := 0]
  {
    if head != [] {
      DetachedCounts(head[1..], h);
      assert head == [head[0]] + head[1..];
    }
  }

  /** Detaching an element that does not carry `id` leaves the other
      children in their order: `getElementById(id)` finds the same element. */
  lemma {:induction false} DetachedKeepsFind(nodes: seq<Element>, head: seq<nat>, h: nat, id: string)
    requires InTable(nodes, head) && h < |nodes| && nodes[h].id != id
    ensures InTable(nodes, Detached(head, h))
    ensures FindById(nodes, Detached(head, h), id) == FindById(nodes, head, id)
  {
    DetachedInTable(nodes, head, h);
    if head != [] {
      var tail := head[1..];
      assert InTable(nodes, tail) by {
        forall i | 0 <= i < |tail| ensures tail[i] < |nodes| { assert tail[i] == head[i + 1]; }
      }
      DetachedKeepsFind(nodes, tail, h, id);
      var rest := Detached(tail, h);
      assert FindById(nodes, head, id) ==
        if nodes[head[0]].id == id then Some(head[0]) else FindById(nodes, tail, id);
      if head[0] == h {
        assert Detached(head, h) == rest;
      } else {
        var d := [head[0]] + rest;
        assert Detached(head, h) == d;
        assert d[0] == head[0] && d[1..] == rest;
        assert FindById(nodes, d, id) ==
          if nodes[head[0]].id == id then Some(head[0]) else FindById(nodes, rest, id);
      }
    }
  }

  /** The element found is the first one in document order that carries the id. */
  lemma {:induction false} FindByIdIsFirst(nodes: seq<Element>, head: seq<nat>, id: string)
    requires InTable(nodes, head)
    requires FindById(nodes, head, id).Some?
    ensures exists i :: 0 <= i < |head| && head[i] == FindById(nodes, head, id).value &&
                        forall j :: 0 <= j < i ==> nodes[head[j]].id != id
  {
    if nodes[head[0]].id != id {
      FindByIdIsFirst(nodes, head[1..], id);
      var i :| 0 <= i < |head[1..]| && head[1..][i] == FindById(nodes, head[1..], id).value &&
               forall j :: 0 <= j < i ==> nodes[head[1..][j]].id != id;
      assert head[i + 1] == FindById(nodes, head, id).value;
      forall j | 0 <= j < i + 1 ensures nodes[head[j]].id != id {
        if j > 0 { assert head[j] == head[1..][j - 1]; }
      }
    } else {
      assert head[0] == FindById(nodes, head, id).value;
    }
  }

  lemma {:induction false} CountIdAppend(nodes: seq<Element>, head: seq<nat>, x: nat, id: string)
    requires InTable(nodes, head)
    requires x < |nodes|
    ensures CountId(nodes, head + [x], id) == CountId(nodes, head, id) + (if nodes[x].id == id then 1 else 0)
  {
    if head != [] {
      assert (head + [x])[1..] == head[1..] + [x];
      CountIdAppend(nodes, head[1..], x, id);
    }
  }

  /** Changing elements' texts, or elements outside the head, does not
      change which children of the head carry an id. */
  lemma {:induction false} CountIdFrame(nodes: seq<Element>, nodes': seq<Element>, head: seq<nat>, id: string)
    requires InTable(nodes, head) && InTable(nodes', head)
    requires forall i :: 0 <= i < |head| ==> nodes'[head[i]].id == nodes[head[i]].id
    ensures CountId(nodes', head, id) == CountId(nodes, head, id)
  {
    if head != [] {
      CountIdFrame(nodes, nodes', head[1..], id);
    }
  }

  /** An attached element carrying `id` is counted. */
  lemma {:induction false} CountIdPositive(nodes: seq<Element>, head: seq<nat>, x: nat, id: string)
    requires InTable(nodes, head)
    requires x in head && nodes[x].id == id
    ensures CountId(nodes, head, id) >= 1
  {
  }

  /** The document as an object: the script and the page's own code both
      update it in place. */
  class Document {
    var colorScheme: string
    var nodes: seq<Element>
    var head: seq<nat>
    var bodyBackground: Option<string>
    var htmlBackground: string

    function Snapshot(): Page
      reads this
    {
      Page(colorScheme, nodes, head, bodyBackground, htmlBackground)
    }

    ghost predicate Valid()
      reads this
    {
      WellFormed(Snapshot())
    }

    constructor (p: Page)
      requires WellFormed(p)
      ensures Valid() && Snapshot() == p
    {
      colorScheme, nodes, head := p.colorScheme, p.nodes, p.head;
      bodyBackground, htmlBackground := p.bodyBackground, p.htmlBackground;
    }

    method GetElementById(id: string) returns (r: Option<nat>)
      requires Valid()
      ensures r.Some? ==> r.value in head && r.value < |nodes| && nodes[r.value].id == id
      ensures r == FindById(nodes, head, id)
    {
      r := FindById(nodes, head, id);
    }

    method CreateElement() returns (h: nat)
      requires Valid()
      modifies this
      ensures Valid() && h == |old(nodes)| && h < |nodes|
      ensures Snapshot() == Created(old(Snapshot()))
    {
      h := |nodes|;
      nodes := nodes + [Element("", "")];
    }

    method SetId(h: nat, id: string)
      requires Valid() && h < |nodes|
      modifies this
      ensures Valid() && Snapshot() == WithId(old(Snapshot()), h, id)
    {
      nodes := nodes[h := nodes[h].(id := id)];
    }

    method SetText(h: nat, text: string)
      requires Valid() && h < |nodes|
      modifies this
      ensures Valid() && Snapshot() == WithText(old(Snapshot()), h, text)
    {
      nodes := nodes[h := nodes[h].(text := text)];
    }

    method AppendChild(h: nat)
      requires Valid() && h < |nodes|
      modifies this
      ensures Valid() && Snapshot() == Appended(old(Snapshot()), h)
    {
      head := Appended(Snapshot(), h).head;
    }

    method RemoveChild(h: nat)
      requires Valid()
      modifies this
      ensures Valid() && Snapshot() == Removed(old(Snapshot()), h)
    {
      head := Removed(Snapshot(), h).head;
    }

    method SetColorScheme(scheme: string)
      requires Valid()
      modifies this
      ensures Valid() && Snapshot() == WithColorScheme(old(Snapshot()), scheme)
    {
      colorScheme := scheme;
    }

    /** The page's own code restyles itself (a theme toggle, a late
        stylesheet), changing the computed backgrounds. */
    method Restyle(body: Option<string>, html: string)
      requires Valid()
      modifies this
      ensures Valid() && Snapshot() == old(Snapshot()).(bodyBackground := body, htmlBackground := html)
    {
      bodyBackground, htmlBackground := body, html;
    }
  }
}
