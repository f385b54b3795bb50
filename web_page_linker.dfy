/**
 * The page store and the reachability engine of WebPageLinker.c.
 *
 * The C program keeps its pages in a singly linked list rooted at the global
 * graphHead, and each page's outgoing links in a second linked list. Here the
 * list of pages is the sequence `pages` of a WebGraph object, in list order,
 * and a link is the index of its destination page in that sequence.
 */
module WebPageLinker {
  import opened Wrappers
  import opened Digraph

  /** One page: its name, the indices of its link destinations in insertion order, and the DFS mark. */
  datatype Page = Page(name: string, edges: seq<nat>, visited: bool)

  /** The link structure of a page list, as an adjacency list. */
  function Links(ps: seq<Page>): Adjacency {
    seq(|ps|, i requires 0 <= i < |ps| => ps[i].edges)
  }

  /** The visited flags of a page list. */
  function Marks(ps: seq<Page>): seq<bool> {
    seq(|ps|, i requires 0 <= i < |ps| => ps[i].visited)
  }

  function Names(ps: seq<Page>): seq<string> {
    seq(|ps|, i requires 0 <= i < |ps| => ps[i].name)
  }

  ghost predicate UniqueNames(ps: seq<Page>) {
    forall i, j :: 0 <= i < j < |ps| ==> ps[i].name != ps[j].name
  }

  ghost predicate HasPage(ps: seq<Page>, name: string) {
    exists i :: 0 <= i < |ps| && ps[i].name == name
  }

  /** The position of the first page called name, or None when no page has that name. */
  function IndexOf(ps: seq<Page>, name: string): (r: Option<nat>)
    ensures r.None? <==> !HasPage(ps, name)
    ensures r.Some? ==> r.value < |ps| && ps[r.value].name == name &&
                        forall k :: 0 <= k < r.value ==> ps[k].name != name
  {
    if ps == [] then None
    else if ps[0].name == name then Some(0)
    else
      var rest := IndexOf(ps[1..], name);
      assert HasPage(ps, name) ==> HasPage(ps[1..], name) by {
        if HasPage(ps, name) {
          var i :| 0 <= i < |ps| && ps[i].name == name;
          assert ps[1..][i - 1].name == name;
        }
      }
      assert HasPage(ps[1..], name) ==> HasPage(ps, name) by {
        if HasPage(ps[1..], name) {
          var i :| 0 <= i < |ps[1..]| && ps[1..][i].name == name;
          assert ps[i + 1].name == name;
        }
      }
      match rest
      case None => None
      case Some(k) => Some(k + 1)
  }

  /** With unique names, a name picks out exactly one page. */
  lemma IndexOfUnique(ps: seq<Page>, i: nat)
    requires UniqueNames(ps) && i < |ps|
    ensures IndexOf(ps, ps[i].name) == Some(i)
  {
    assert HasPage(ps, ps[i].name);
  }

  /** Marking one page visited changes neither the names nor the links. */
  lemma MarkPage(ps: seq<Page>, i: nat)
    requires i < |ps|
    ensures var q := ps[i := ps[i].(visited := true)];
      Links(q) == Links(ps) && Names(q) == Names(ps) && Marks(q) == Marks(ps)[i := true] &&
      (UniqueNames(ps) ==> UniqueNames(q))
  {
    var q := ps[i := ps[i].(visited := true)];
    assert Links(q) == Links(ps);
    assert Names(q) == Names(ps);
    assert Marks(q) == Marks(ps)[i := true];
  }

  class WebGraph {
    /** The pages in list order: graphHead first. */
    var pages: seq<Page>

    /** Page names are unique and every link points to a page of the graph. */
    ghost predicate Valid()
      reads this
    {
      UniqueNames(pages) && WellFormed(Links(pages))
    }

    /** Between queries no page is marked visited. */
    ghost predicate AtRest()
      reads this
    {
      forall i :: 0 <= i < |pages| ==> !pages[i].visited
    }

    /** The empty graph: graphHead is NULL. */
    constructor ()
      ensures Valid() && AtRest() && pages == []
    {
      pages := [];
    }

    /**
     * addPageToGraph: returns 1 and changes nothing when a page already has
     * the name; otherwise appends a fresh page after all existing ones and
     * returns 0.
     */
    method AddPage(name: string) returns (status: int)
      requires Valid()
      modifies this
      ensures Valid()
      ensures status == 0 || status == 1
      ensures status == 1 <==> HasPage(old(pages), name)
      ensures status == 1 ==> pages == old(pages)
      ensures status == 0 ==> pages == old(pages) + [Page(name, [], false)]
    {
      var node := Page(name, [], false);
      if |pages| == 0 {
        pages := [node];
        return 0;
      }
      var i := 0;
      while i < |pages|
        invariant 0 <= i <= |pages|
        invariant forall k :: 0 <= k < i ==> pages[k].name != name
      {
        if pages[i].name == name {
          return 1;
        }
        i := i + 1;
      }
      pages := pages + [node];
      assert Links(pages) == Links(old(pages)) + [[]];
      return 0;
    }

    /**
     * addLinkToPage: scans every page for the source and the destination
     * name (the last match wins); returns 1 and changes nothing if either is
     * missing, and otherwise appends one link to the destination at the end
     * of the source's links and returns 0.
     */
    method AddLink(source: string, target: string) returns (status: int)
      requires Valid()
      modifies this
      ensures Valid()
      ensures status == 0 || status == 1
      ensures status == 1 <==> !HasPage(old(pages), source) || !HasPage(old(pages), target)
      ensures status == 1 ==> pages == old(pages)
      ensures status == 0 ==>
        var s, d := IndexOf(old(pages), source).value, IndexOf(old(pages), target).value;
        pages == old(pages)[s := old(pages)[s].(edges := old(pages)[s].edges + [d])]
    {
      var src: Option<nat> := None;
      var dst: Option<nat> := None;
      var i := 0;
      while i < |pages|
        invariant 0 <= i <= |pages|
        invariant src.None? <==> forall k :: 0 <= k < i ==> pages[k].name != source
        invariant src.Some? ==> src.value < i && pages[src.value].name == source
        invariant dst.None? <==> forall k :: 0 <= k < i ==> pages[k].name != target
        invariant dst.Some? ==> dst.value < i && pages[dst.value].name == target
      {
        if pages[i].name == source {
          src := Some(i);
        }
        if pages[i].name == target {
          dst := Some(i);
        }
        i := i + 1;
      }
      if src.None? || dst.None? {
        return 1;
      }
      var s, d := src.value, dst.value;
      IndexOfUnique(pages, s);
      IndexOfUnique(pages, d);
      pages := pages[s := pages[s].(edges := pages[s].edges + [d])];
      assert forall x :: 0 <= x < |pages| && x != s ==> Links(pages)[x] == Links(old(pages))[x];
      assert forall k :: 0 <= k < |Links(pages)[s]| ==> Links(pages)[s][k] < |pages| by {
        forall k | 0 <= k < |Links(pages)[s]| ensures Links(pages)[s][k] < |pages| {
          if k < |old(pages)[s].edges| {
            assert Links(pages)[s][k] == Links(old(pages))[s][k];
          }
        }
      }
      return 0;
    }

    /** findNode: the index of the first page with the given name, or None (NULL). */
    method FindNode(name: string) returns (node: Option<nat>)
      ensures node.None? <==> !HasPage(pages, name)
      ensures node.Some? ==> node.value < |pages| && pages[node.value].name == name &&
                             forall k :: 0 <= k < node.value ==> pages[k].name != name
      ensures node == IndexOf(pages, name)
    {
      node := None;
      var i := 0;
      while i < |pages|
        invariant 0 <= i <= |pages|
        invariant forall k :: 0 <= k < i ==> pages[k].name != name
      {
        if pages[i].name == name {
          node := Some(i);
          break;
        }
        i := i + 1;
      }
    }

    /** findPage: 0 when some page has the name, 1 otherwise. */
    method FindPage(name: string) returns (status: int)
      ensures status == 0 || status == 1
      ensures status == 0 <==> HasPage(pages, name)
    {
      status := 1;
      var i := 0;
      while i < |pages|
        invariant 0 <= i <= |pages|
        invariant status == 1
        invariant forall k :: 0 <= k < i ==> pages[k].name != name
      {
        if pages[i].name == name {
          status := 0;
          break;
        }
        i := i + 1;
      }
    }

    /**
     * dfs: depth-first search from page `from` for page `to`. A page whose
     * name is to's answers true before the visited flag is looked at; a page
     * already visited answers false; otherwise the page is marked and its
     * links are followed in insertion order until one succeeds.
     *
     * When the search fails, every page it newly marked has all its
     * successors marked: the fact that makes an unsuccessful search from an
     * unmarked graph a proof of unreachability.
     */
    method Dfs(from: nat, to: nat) returns (found: bool)
      requires Valid() && from < |pages| && to < |pages|
      modifies this
      ensures Valid()
      ensures Names(pages) == Names(old(pages)) && Links(pages) == Links(old(pages))
      ensures Grows(Marks(old(pages)), Marks(pages)) && pages[to].visited == old(pages[to].visited)
      ensures found ==> Reachable(Links(pages), from, to)
      ensures !found ==> pages[from].visited && ClosedSince(Links(pages), Marks(old(pages)), Marks(pages))
      decreases CountFalse(Marks(pages))
    {
      ghost var adj := Links(pages);
      if pages[from].name == pages[to].name {
        IndexOfUnique(pages, from);
        IndexOfUnique(pages, to);
        ReachableSelf(adj, from);
        return true;
      }
      if pages[from].visited {
        return false;
      }
      MarkPage(pages, from);
      pages := pages[from := pages[from].(visited := true)];
      ghost var marked := Marks(pages);
      CountFalseDrops(Marks(old(pages)), marked, from);
      var edges := pages[from].edges;
      var k := 0;
      while k < |edges|
        invariant 0 <= k <= |edges| && edges == adj[from]
        invariant Valid() && Links(pages) == adj && Names(pages) == Names(old(pages))
        invariant Grows(marked, Marks(pages)) && pages[to].visited == old(pages[to].visited)
        invariant ClosedSince(adj, marked, Marks(pages))
        invariant forall j :: 0 <= j < k ==> Marks(pages)[edges[j]]
      {
        ghost var before := Marks(pages);
        CountFalseMonotone(marked, before);
        var r := Dfs(edges[k], to);
        if r {
          ReachableStep(adj, from, edges[k], to);
          return true;
        }
        ChildSearched(adj, marked, before, Marks(pages), edges, k);
        k := k + 1;
      }
      ClosedSinceMarked(adj, Marks(old(pages)), Marks(pages), from);
      return false;
    }

    /** resetVisits: clears every visited flag and changes nothing else. */
    method ResetVisits()
      modifies this
      ensures old(Valid()) ==> Valid()
      ensures |pages| == |old(pages)|
      ensures forall i :: 0 <= i < |pages| ==> pages[i] == old(pages)[i].(visited := false)
      ensures AtRest()
    {
      var i := 0;
      while i < |pages|
        invariant 0 <= i <= |pages| && |pages| == |old(pages)|
        invariant forall k :: 0 <= k < i ==> pages[k] == old(pages)[k].(visited := false)
        invariant forall k :: i <= k < |pages| ==> pages[k] == old(pages)[k]
      {
        pages := pages[i := pages[i].(visited := false)];
        i := i + 1;
      }
      assert Names(pages) == Names(old(pages)) && Links(pages) == Links(old(pages));
    }

    /**
     * printConnection, with the page-existence check main makes before it:
     * None when either page is missing (no search is made); otherwise the
     * dfs answer, which is whether the second page can be reached from the
     * first, after which every visited flag is cleared again.
     */
    method IsConnected(one: string, two: string) returns (answer: Option<bool>)
      requires Valid() && AtRest()
      modifies this
      ensures pages == old(pages)
      ensures answer.None? <==> !HasPage(pages, one) || !HasPage(pages, two)
      ensures answer.Some? ==>
        answer.value == Reachable(Links(pages), IndexOf(pages, one).value, IndexOf(pages, two).value)
    {
      var pageOne := FindPage(one);
      var pageTwo := FindPage(two);
      if pageOne != 0 || pageTwo != 0 {
        return None;
      }
      var nodeOne := FindNode(one);
      var nodeTwo := FindNode(two);
      var found := Dfs(nodeOne.value, nodeTwo.value);
      if !found {
        assert Closed(Links(pages), Marks(pages));
        ClosedSeparates(Links(pages), Marks(pages), nodeOne.value, nodeTwo.value);
      }
      ghost var searched := pages;
      ResetVisits();
      assert forall i :: 0 <= i < |pages| ==> pages[i] == old(pages)[i] by {
        forall i | 0 <= i < |pages| ensures pages[i] == old(pages)[i] {
          assert Names(searched)[i] == Names(old(pages))[i];
          assert Links(searched)[i] == Links(old(pages))[i];
        }
      }
      return Some(found);
    }
  }
}
