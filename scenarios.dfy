/**
 * Clients of WebGraph that check, from the contracts alone, the behaviour
 * the command interpreter relies on for a few small graphs.
 */
module Scenarios {
  import opened Wrappers
  import opened Digraph
  import opened WebPageLinker

  /** Adds the pages myPage, UofA, csDept and localTheater, in that order, to an empty graph. */
  method FourPages() returns (g: WebGraph)
    ensures fresh(g) && g.Valid() && g.AtRest()
    ensures g.pages == [Page("myPage", [], false), Page("UofA", [], false),
                        Page("csDept", [], false), Page("localTheater", [], false)]
  {
    g := new WebGraph();
    var s := g.AddPage("myPage");
    s := g.AddPage("UofA");
    s := g.AddPage("csDept");
    s := g.AddPage("localTheater");
  }

  /** A repeated name is refused and an unknown page is reported, not searched. */
  method UnknownAndDuplicate() {
    var g := FourPages();
    assert g.pages[1].name == "UofA";
    var s := g.AddPage("UofA");
    assert s == 1 && |g.pages| == 4;
    s := g.AddLink("ghost", "myPage");
    assert s == 1;
    var answer := g.IsConnected("ghost", "myPage");
    assert answer == None;
    IndexOfUnique(g.pages, 2);
    answer := g.IsConnected("csDept", "csDept");
    ReachableSelf(Links(g.pages), 2);
    assert answer == Some(true);
  }

  /** With only myPage -> UofA, localTheater is not reachable from myPage. */
  method OneLink() {
    var g := FourPages();
    IndexOfUnique(g.pages, 0);
    IndexOfUnique(g.pages, 1);
    IndexOfUnique(g.pages, 3);
    ghost var before := g.pages;
    assert IndexOf(before, "myPage") == Some(0);
    assert IndexOf(before, "UofA") == Some(1);
    var s := g.AddLink("myPage", "UofA");
    assert s == 0;
    assert before[0].edges + [1] == [1];
    assert g.pages == before[0 := before[0].(edges := [1])];
    assert g.pages[0].edges == [1];
    assert Links(g.pages) == [[1], [], [], []];
    IndexOfUnique(g.pages, 0);
    IndexOfUnique(g.pages, 3);
    var answer := g.IsConnected("myPage", "localTheater");
    ClosedSeparates(Links(g.pages), [true, true, false, false], 0, 3);
    assert answer == Some(false);
  }

  /** With myPage -> UofA -> localTheater the path is found, and only in that direction. */
  method TwoLinks() {
    var g := FourPages();
    ghost var p0 := g.pages;
    IndexOfUnique(p0, 0);
    IndexOfUnique(p0, 1);
    var s := g.AddLink("myPage", "UofA");
    assert p0[0].edges + [1] == [1];
    ghost var p1 := g.pages;
    assert p1 == p0[0 := p0[0].(edges := [1])];
    IndexOfUnique(p1, 1);
    IndexOfUnique(p1, 3);
    s := g.AddLink("UofA", "localTheater");
    assert p1[1].edges + [3] == [3];
    assert g.pages == p1[1 := p1[1].(edges := [3])];
    ghost var adj := Links(g.pages);
    assert adj == [[1], [3], [], []];
    IndexOfUnique(g.pages, 0);
    IndexOfUnique(g.pages, 3);
    var answer := g.IsConnected("myPage", "localTheater");
    ReachableSelf(adj, 1);
    ReachableSelf(adj, 3);
    ReachableStep(adj, 0, 1, 1);
    ReachableStep(adj, 1, 3, 3);
    ReachableTrans(adj, 0, 1, 3);
    assert answer == Some(true);
    answer := g.IsConnected("localTheater", "myPage");
    ClosedSeparates(adj, [false, false, false, true], 3, 0);
    assert answer == Some(false);
  }

  /** A two-page cycle: the search terminates and finds the other page. */
  method Cycle() {
    var g := new WebGraph();
    var s := g.AddPage("A");
    s := g.AddPage("B");
    ghost var p0 := g.pages;
    assert p0 == [Page("A", [], false), Page("B", [], false)];
    IndexOfUnique(p0, 0);
    IndexOfUnique(p0, 1);
    s := g.AddLink("A", "B");
    assert p0[0].edges + [1] == [1];
    ghost var p1 := g.pages;
    assert p1 == p0[0 := p0[0].(edges := [1])];
    IndexOfUnique(p1, 0);
    IndexOfUnique(p1, 1);
    s := g.AddLink("B", "A");
    assert p1[1].edges + [0] == [0];
    assert g.pages == p1[1 := p1[1].(edges := [0])];
    ghost var adj := Links(g.pages);
    assert adj == [[1], [0]];
    IndexOfUnique(g.pages, 0);
    IndexOfUnique(g.pages, 1);
    var answer := g.IsConnected("A", "B");
    ReachableSelf(adj, 1);
    ReachableStep(adj, 0, 1, 1);
    assert answer == Some(true);
  }

  /** Asking the same question twice of an unchanged graph gives the same answer. */
  method RepeatQuery(g: WebGraph, one: string, two: string) returns (first: Option<bool>, second: Option<bool>)
    requires g.Valid() && g.AtRest()
    modifies g
    ensures first == second && g.pages == old(g.pages)
  {
    first := g.IsConnected(one, two);
    second := g.IsConnected(one, two);
  }
}
