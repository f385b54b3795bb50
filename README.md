# WebPageLinker in Dafny

WebPageLinker keeps a directed graph of named web pages and answers the
question "can page B be reached from page A by following links?". This
project models its core: the page store (`addPageToGraph`, `addLinkToPage`,
`findNode`, `findPage`), the reachability engine (`dfs`, `resetVisits`, and
the search-then-reset sequence of `printConnection`) and the string helper
`removeAllWhitespace`. All of these are in `WebPageLinker/WebPageLinker.c`.

How the model is laid out:

- `wrappers.dfy`: module `Wrappers`, with the `Option` type that stands for a
  page pointer that may be NULL.
- `digraph.dfy`: module `Digraph`. It treats a graph as adjacency lists of
  node indices and defines paths and `Reachable`: a path of zero or more
  links. It also holds the lemmas about the visit marks a depth-first search
  leaves behind, and the measure that proves the search terminates.
- `web_page_linker.dfy`: module `WebPageLinker`, with the class `WebGraph`.
  The C code keeps a linked list of `struct page` rooted at the global
  `graphHead`. Here that list is the field `pages: seq<Page>`, in list order.
  A `Page` holds the page's name, its links as destination indices in
  insertion order, and its `visited` flag. Methods that walk the list in C
  are `while` loops here. The recursive `dfs` is a recursive method that
  updates `visited` in place.
- `whitespace.dfy`: module `Whitespace`. `removeAllWhitespace` is a method
  that compacts a NUL-terminated `array<char>` in place with the two indices
  of the C loop. `Stripped` says what the buffer holds afterwards.
- `scenarios.dfy`: module `Scenarios`, with client methods that use only the
  contracts. They build small graphs and prove the expected answers: a
  duplicate page is refused, an unknown page is reported, a page reaches
  itself, a path through two links is found in one direction only, and a
  search over a two-page cycle terminates and succeeds.

The object invariant `WebGraph.Valid()` says that page names are unique and
that every link points to an existing page. `WebGraph.AtRest()` says that no
page is marked visited. `AddPage`, `AddLink` and `IsConnected` preserve
both. `Dfs` keeps `Valid()` but marks pages. `ResetVisits` keeps `Valid()`
and clears every mark, which restores `AtRest()`.

The main correctness result is the contract of `WebGraph.IsConnected`. Start
from a valid graph at rest. The answer is `None` exactly when one of the two
names is missing. Otherwise it is `Some(b)`, where `b` says whether the second
page is reachable from the first. Afterwards the page list is exactly what it
was before. So a repeated query gets the same answer, which is what
`Scenarios.RepeatQuery` proves.

`WebGraph.Dfs` proves two things. A `true` result comes with a path. After a
`false` result, every page the call newly marked has all its links leading
to marked pages. When the search starts at rest, the marks are therefore
closed under links, and they hold the start page but not the target.
`Digraph.ClosedSeparates` turns that into unreachability. The search
terminates on cyclic graphs because the number of unmarked pages
(`Digraph.CountFalse`) goes down at every recursive call.

Two places where the code behaves differently from what one might expect:

- The code checks page existence in `main` with `findPage` and then calls
  `printConnection`, which assumes both pages exist (lines 503-513 and
  265-274). `IsConnected` models that whole sequence. When a page is missing
  it does not search and does not reset.
- `addLinkToPage` does not stop at the first match. It scans the whole list
  and keeps the last page with each name. `AddLink` does the same. Because
  names are unique, that is the page `IndexOf` finds.

## Model

| member | source | states |
|---|---|---|
| WebPageLinker.WebGraph.constructor | WebPageLinker/WebPageLinker.c:52 | the graph starts empty (graphHead is NULL), valid and with no page marked |
| WebPageLinker.WebGraph.AddPage | WebPageLinker/WebPageLinker.c:62-90 | returns 1 and leaves the page list unchanged exactly when a page already has the name; otherwise returns 0 and the new list is the old list followed by one unmarked page with that name and no links; unique names and in-range links are preserved |
| WebPageLinker.WebGraph.AddLink | WebPageLinker/WebPageLinker.c:102-180 | returns 1 and changes nothing exactly when the source or the destination name matches no page; otherwise returns 0 and the only change is one link to the destination page appended at the end of the source page's links (self-links and repeated links accepted); the graph invariant is preserved |
| WebPageLinker.WebGraph.FindNode | WebPageLinker/WebPageLinker.c:190-207 | returns None exactly when no page has the name, and otherwise the index of the first page in list order with that name; it agrees with IndexOf |
| WebPageLinker.WebGraph.FindPage | WebPageLinker/WebPageLinker.c:283-296 | returns 0 exactly when some page has the name, and 1 otherwise |
| WebPageLinker.IndexOf | WebPageLinker/WebPageLinker.c:196-206 | the lookup specification: None exactly when no page has the name, else the position of the first page with it |
| WebPageLinker.IndexOfUnique | WebPageLinker/WebPageLinker.c:124-140 | when names are unique, looking up a page's name gives that page's own index, so the first match of findNode and the last match kept by addLinkToPage are the same page |
| WebPageLinker.MarkPage | WebPageLinker/WebPageLinker.c:228 | setting one page's visited flag changes no name and no link and sets exactly that page's mark |
| WebPageLinker.WebGraph.Dfs | WebPageLinker/WebPageLinker.c:218-238 | names, links and the target's flag are left as they were and marks only grow; a true answer means the target is reachable by a path; a false answer means the start page is marked and every page newly marked has all its links leading to marked pages; terminates because unmarked pages decrease at each recursive call |
| WebPageLinker.WebGraph.ResetVisits | WebPageLinker/WebPageLinker.c:247-253 | a valid graph stays valid; every page is the same as before except that its visited flag is cleared, so no page is left marked |
| WebPageLinker.WebGraph.IsConnected | WebPageLinker/WebPageLinker.c:265-274 | from a valid graph at rest: None exactly when either name is missing, otherwise Some of whether the second page is reachable from the first by zero or more links; the page list is exactly as before |
| Digraph.ReachableSelf | WebPageLinker/WebPageLinker.c:220-222 | every page reaches itself by the empty path, which is why a self-query answers true |
| Digraph.ReachableStep | WebPageLinker/WebPageLinker.c:231-236 | a page reaches whatever the destination of one of its links reaches |
| Digraph.ReachableTrans | WebPageLinker/WebPageLinker.c:231-236 | reachability is transitive: paths compose |
| Digraph.ReachableUnfold | WebPageLinker/WebPageLinker.c:218-238 | t is reachable from u exactly when t is u or t is reachable from some destination of u's links: the recurrence dfs follows |
| Digraph.MarkedPathEnd | WebPageLinker/WebPageLinker.c:224-226 | when marks are closed under links, a path that starts at a marked page ends at a marked page |
| Digraph.ClosedSeparates | WebPageLinker/WebPageLinker.c:224-237 | marks closed under links that hold u and not t prove that t is unreachable from u |
| Digraph.ClosedSinceTrans | WebPageLinker/WebPageLinker.c:231-236 | the closure property of the marks added by two successive searches combines into one for both |
| Digraph.ChildSearched | WebPageLinker/WebPageLinker.c:231-236 | after a failed recursive search for one link, earlier marks stay set, the closure property extends, and every link explored so far leads to a marked page |
| Digraph.ClosedSinceMarked | WebPageLinker/WebPageLinker.c:228-237 | a page marked before its links were explored satisfies the closure property once all its links lead to marked pages |
| Digraph.CountFalseMonotone | WebPageLinker/WebPageLinker.c:224-228 | adding marks never increases the number of unmarked pages |
| Digraph.CountFalseDrops | WebPageLinker/WebPageLinker.c:228 | marking an unmarked page strictly decreases the number of unmarked pages, the termination measure of dfs |
| Whitespace.Stripped | WebPageLinker/WebPageLinker.c:307-316 | the stripped string is no longer than the original and contains no whitespace character |
| Whitespace.StrippedAppend | WebPageLinker/WebPageLinker.c:309-314 | stripping a concatenation is the concatenation of the stripped parts, so kept characters keep their relative order |
| Whitespace.StrippedCounts | WebPageLinker/WebPageLinker.c:310-312 | every non-whitespace character occurs in the result exactly as often as in the input, and whitespace not at all |
| Whitespace.StrippedNoSpace | WebPageLinker/WebPageLinker.c:310-312 | a string without whitespace is left unchanged |
| Whitespace.StrippedIdempotent | WebPageLinker/WebPageLinker.c:307-316 | stripping twice is the same as stripping once |
| Whitespace.StrippedAddsNothing | WebPageLinker/WebPageLinker.c:310-312 | stripping never introduces a character that was not in the input, in particular no NUL |
| Whitespace.StrippedStep | WebPageLinker/WebPageLinker.c:309-313 | one more step of the read index extends the stripped prefix by the character read, unless it is whitespace |
| Whitespace.CStr | WebPageLinker/WebPageLinker.c:309 | the C string in a buffer is the prefix before the first NUL; it contains no NUL and the NUL follows it when the buffer is longer |
| Whitespace.CStrPrefix | WebPageLinker/WebPageLinker.c:315 | a buffer whose first j characters hold no NUL and whose character j is NUL holds a C string of length j |
| Whitespace.CompactedBuffer | WebPageLinker/WebPageLinker.c:315 | writing the terminator after the compacted characters makes the buffer's C string the stripped old string |
| Whitespace.RemoveAllWhitespace | WebPageLinker/WebPageLinker.c:307-316 | afterwards the buffer's C string is the old C string with all whitespace removed, never longer, and the old terminator and every character after it are untouched |
| Scenarios.FourPages | WebPageLinker/WebPageLinker.c:62-90 | adding four distinct names to an empty graph gives exactly those four unmarked, unlinked pages in insertion order |
| Scenarios.RepeatQuery | WebPageLinker/WebPageLinker.c:265-274 | two identical queries on an unchanged graph give the same answer and leave the page list as it was |

## Left out

- `main` (lines 360-531) is left out: choosing the input file or stdin, `getline`, `strtok` tokenizing, keyword dispatch, argument-count checks, the loop of `addLinkToPage` calls for one source, and the exit status. The only part modelled is the `findPage` check before `printConnection`, inside `IsConnected`.
- All `printf` and `fprintf(stderr, ...)` output is left out. `IsConnected` returns the value `printConnection` prints, and the error paths return status codes.
- Allocation is assumed to always succeed. So the `malloc` failure branches are left out, and so are the scratch allocations that are overwritten and leaked (lines 70, 105, 112, 160). The `link == NULL` test at line 150, which tests the wrong pointer, is also part of that failure handling.
- `freeMemory` (lines 327-347) is left out: a Dafny model has no manual deallocation.
- Library semantics: `strcmp(a, b) == 0` is string equality. `isspace` is the predicate `IsSpace` over the six C-locale whitespace characters.
- Pointers: a `struct page *` is an index into `pages`, and NULL is `None`. The `next` chains of pages and of links are sequence order. So the C walk to the end of a link list is a sequence append, and aliasing between list nodes is not modelled.
- Call depth: the recursion depth of `dfs`, bounded only by the number of pages, is a resource limit of the C program and is not modelled.
- WebPageLinker.WebGraph.Dfs: its contract says nothing about the marks left after a `true` answer. The only caller clears all marks right afterwards.
