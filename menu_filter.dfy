/**
 * Menu entries and the search filter of the navigation menu
 * (`filterMenuItems`): a left fold over the top-level entries that keeps an
 * entry when its own title or one of its direct children's titles contains
 * the search term, ignoring case, and cuts a kept entry's children down to
 * the matching ones.
 */
module MenuFilter {
  import opened Wrappers
  import opened Strings

  /** One menu node; groups carry `children`, leaves usually a `path`. */
  datatype MenuItem = MenuItem(
    key: string,
    title: string,
    icon: Option<string>,
    badge: Option<string>,
    path: Option<string>,
    children: Option<seq<MenuItem>>)

  /**
   * `title.toLowerCase().includes(term.toLowerCase())`; a term longer than
   * the title never matches (`MatchesIff` gives the full meaning).
   */
  predicate Matches(title: string, term: string)
    ensures Matches(title, term) ==> |term| <= |title|
  {
    Includes(Lower(title), Lower(term))
  }

  /** A title matches exactly when the lower-cased term occurs somewhere in the lower-cased title. */
  lemma MatchesIff(title: string, term: string)
    ensures Matches(title, term) <==> Occurs(Lower(title), Lower(term))
  {
    IncludesIff(Lower(title), Lower(term));
  }

  /**
   * `children.filter(...)`: the children whose titles match, in their order
   * (written as a left fold, like the filter over the top-level entries).
   */
  function MatchingChildren(cs: seq<MenuItem>, term: string): (r: seq<MenuItem>)
    ensures |r| <= |cs|
  {
    if cs == [] then []
    else
      var last := cs[|cs| - 1];
      MatchingChildren(cs[..|cs| - 1], term) + (if Matches(last.title, term) then [last] else [])
  }

  /**
   * `item.children && item.children.some(...)`: exactly when the child
   * filter leaves at least one child.
   */
  predicate HasMatchingChild(item: MenuItem, term: string)
    ensures HasMatchingChild(item, term) <==>
      item.children.Some? && MatchingChildren(item.children.value, term) != []
  {
    if item.children.None? then false
    else
      var kept := MatchingChildren(item.children.value, term);
      MatchingChildrenMembers(item.children.value, term);
      assert kept != [] ==> kept[0] in kept;
      exists c :: c in item.children.value && Matches(c.title, term)
  }

  /**
   * The keep rule of the fold, `matchesTitle || hasMatchingChildren`: an
   * entry is kept when its own title matches or its pruned copy still has
   * children.
   */
  predicate Keeps(item: MenuItem, term: string)
    ensures Keeps(item, term) <==>
      Matches(item.title, term) || (Pruned(item, term).children.Some? && Pruned(item, term).children.value != [])
  {
    Matches(item.title, term) || HasMatchingChild(item, term)
  }

  /** The copy `{ ...item }` pushed for a kept entry, children cut down when present. */
  function Pruned(item: MenuItem, term: string): (r: MenuItem)
    ensures r.key == item.key && r.title == item.title && r.icon == item.icon
    ensures r.badge == item.badge && r.path == item.path
    ensures r.children.Some? <==> item.children.Some?
    ensures item.children.Some? ==>
      forall c :: c in r.children.value <==> c in item.children.value && Matches(c.title, term)
    ensures item.children.Some? ==> r.children.value == MatchingChildren(item.children.value, term)
  {
    if item.children.Some? then
      MatchingChildrenMembers(item.children.value, term);
      item.(children := Some(MatchingChildren(item.children.value, term)))
    else item
  }

  /**
   * The `reduce` over the top-level entries, as a left fold: the result for
   * `items` is the result for all but the last entry, followed by the pruned
   * last entry when it is kept.
   */
  function Filtered(items: seq<MenuItem>, term: string): (r: seq<MenuItem>)
    ensures |r| <= |items|
  {
    if items == [] then []
    else
      var last := items[|items| - 1];
      Filtered(items[..|items| - 1], term) + (if Keeps(last, term) then [Pruned(last, term)] else [])
  }

  /** `filterMenuItems(items, term)`: the early return for an empty term, then the fold. */
  method FilterMenuItems(items: seq<MenuItem>, term: string) returns (filtered: seq<MenuItem>)
    ensures filtered == Filtered(items, term)
  {
    if term == "" {
      EmptyTermKeepsAll(items);
      return items;
    }
    filtered := [];
    var i := 0;
    while i < |items|
      invariant 0 <= i <= |items|
      invariant filtered == Filtered(items[..i], term)
    {
      var item := items[i];
      var matchesTitle := Matches(item.title, term);
      var hasMatchingChildren := HasMatchingChild(item, term);
      if matchesTitle || hasMatchingChildren {
        var filteredItem := item;
        if item.children.Some? {
          filteredItem := item.(children := Some(MatchingChildren(item.children.value, term)));
        }
        filtered := filtered + [filteredItem];
      }
      assert items[..i + 1][..i] == items[..i];
      i := i + 1;
    }
    assert items[..|items|] == items;
  }

  // ---------------------------------------------------------------- children

  /** A child survives the filter exactly when it is one of `cs` and its title matches. */
  lemma {:induction false} MatchingChildrenMembers(cs: seq<MenuItem>, term: string)
    ensures forall c :: c in MatchingChildren(cs, term) <==> c in cs && Matches(c.title, term)
  {
    if cs != [] {
      var n := |cs| - 1;
      MatchingChildrenMembers(cs[..n], term);
      assert cs == cs[..n] + [cs[n]];
    }
  }

  /** Filtering children that all match keeps every one of them. */
  lemma {:induction false} MatchingChildrenAll(cs: seq<MenuItem>, term: string)
    requires forall c :: c in cs ==> Matches(c.title, term)
    ensures MatchingChildren(cs, term) == cs
  {
    if cs != [] {
      var n := |cs| - 1;
      var init := cs[..n];
      assert forall c :: c in init ==> c in cs;
      MatchingChildrenAll(init, term);
      assert Matches(cs[n].title, term);
      assert init + [cs[n]] == cs;
    }
  }

  /** Filtering the children a second time with the same term changes nothing. */
  lemma MatchingChildrenIdempotent(cs: seq<MenuItem>, term: string)
    ensures MatchingChildren(MatchingChildren(cs, term), term) == MatchingChildren(cs, term)
  {
    MatchingChildrenMembers(cs, term);
    MatchingChildrenAll(MatchingChildren(cs, term), term);
  }

  /** The positions of `cs` that have a matching title, in increasing order. */
  function MatchingPositions(cs: seq<MenuItem>, term: string): (ix: seq<nat>)
    ensures |ix| <= |cs|
  {
    if cs == [] then []
    else
      var n := |cs| - 1;
      MatchingPositions(cs[..n], term) + (if Matches(cs[n].title, term) then [n] else [])
  }

  lemma {:induction false} MatchingPositionsIncreasing(cs: seq<MenuItem>, term: string)
    ensures forall j :: 0 <= j < |MatchingPositions(cs, term)| ==> MatchingPositions(cs, term)[j] < |cs|
    ensures forall j, k :: 0 <= j < k < |MatchingPositions(cs, term)| ==> MatchingPositions(cs, term)[j] < MatchingPositions(cs, term)[k]
  {
    if cs != [] {
      MatchingPositionsIncreasing(cs[..|cs| - 1], term);
    }
  }

  lemma {:induction false} MatchingPositionsExact(cs: seq<MenuItem>, term: string)
    ensures forall i :: 0 <= i < |cs| ==> (i in MatchingPositions(cs, term) <==> Matches(cs[i].title, term))
  {
    if cs != [] {
      var n := |cs| - 1;
      var init := cs[..n];
      MatchingPositionsExact(init, term);
      MatchingPositionsIncreasing(init, term);
      forall i | 0 <= i < |cs| ensures i in MatchingPositions(cs, term) <==> Matches(cs[i].title, term) {
        if i < n {
          assert cs[i] == init[i];
        }
      }
    }
  }

  lemma {:induction false} MatchingPositionsSelect(cs: seq<MenuItem>, term: string)
    ensures |MatchingPositions(cs, term)| == |MatchingChildren(cs, term)|
    ensures forall j :: 0 <= j < |MatchingPositions(cs, term)| ==>
      MatchingPositions(cs, term)[j] < |cs| && MatchingChildren(cs, term)[j] == cs[MatchingPositions(cs, term)[j]]
  {
    if cs != [] {
      var n := |cs| - 1;
      var init := cs[..n];
      MatchingPositionsSelect(init, term);
      MatchingPositionsIncreasing(cs, term);
      var ix := MatchingPositions(cs, term);
      var r := MatchingChildren(cs, term);
      assert r == MatchingChildren(init, term) + (if Matches(cs[n].title, term) then [cs[n]] else []);
      forall j | 0 <= j < |ix| ensures r[j] == cs[ix[j]] {
        if j < |MatchingPositions(init, term)| {
          assert r[j] == MatchingChildren(init, term)[j];
        }
      }
    }
  }

  /**
   * The filtered children are the matching children of `cs` in their
   * original order: `ix` lists, increasing, exactly the positions of `cs`
   * whose titles match, and the result holds those children.
   */
  lemma MatchingChildrenOrder(cs: seq<MenuItem>, term: string) returns (ix: seq<nat>)
    ensures |ix| == |MatchingChildren(cs, term)|
    ensures forall j :: 0 <= j < |ix| ==> ix[j] < |cs| && MatchingChildren(cs, term)[j] == cs[ix[j]]
    ensures forall j, k :: 0 <= j < k < |ix| ==> ix[j] < ix[k]
    ensures forall i :: 0 <= i < |cs| ==> (i in ix <==> Matches(cs[i].title, term))
  {
    ix := MatchingPositions(cs, term);
    MatchingPositionsIncreasing(cs, term);
    MatchingPositionsExact(cs, term);
    MatchingPositionsSelect(cs, term);
  }

  // --------------------------------------------------------------- top level

  /** Every title matches the empty term. */
  lemma MatchesEmptyTerm(title: string)
    ensures Matches(title, "")
  {
  }

  /** The fold returns nothing exactly when no entry passes the keep rule. */
  lemma {:induction false} FilteredEmptyIff(items: seq<MenuItem>, term: string)
    ensures Filtered(items, term) == [] <==> forall i :: 0 <= i < |items| ==> !Keeps(items[i], term)
  {
    if items != [] {
      var n := |items| - 1;
      FilteredEmptyIff(items[..n], term);
      assert forall i :: 0 <= i < n ==> items[..n][i] == items[i];
    }
  }

  /** Matching ignores case on both sides: lower-casing the title or the term first changes nothing. */
  lemma MatchesIgnoresCase(title: string, term: string)
    ensures Matches(Lower(title), term) == Matches(title, term)
    ensures Matches(title, Lower(term)) == Matches(title, term)
  {
    LowerIdempotent(title);
    LowerIdempotent(term);
  }

  /** An empty term is included in every title, so the fold alone would keep everything. */
  lemma {:induction false} EmptyTermKeepsAll(items: seq<MenuItem>)
    ensures Filtered(items, "") == items
  {
    if items != [] {
      var n := |items| - 1;
      var last := items[n];
      EmptyTermKeepsAll(items[..n]);
      MatchesEmptyTerm(last.title);
      assert Keeps(last, "");
      if last.children.Some? {
        forall c | c in last.children.value ensures Matches(c.title, "") {
          MatchesEmptyTerm(c.title);
        }
        MatchingChildrenAll(last.children.value, "");
      }
      assert Pruned(last, "") == last;
      assert items[..n] + [last] == items;
    }
  }

  /** The fold distributes over concatenation of the input. */
  lemma {:induction false} FilteredAppend(a: seq<MenuItem>, b: seq<MenuItem>, term: string)
    ensures Filtered(a + b, term) == Filtered(a, term) + Filtered(b, term)
    decreases |b|
  {
    if b == [] {
      assert a + b == a;
    } else {
      var last := b[|b| - 1];
      assert (a + b)[..|a + b| - 1] == a + b[..|b| - 1];
      FilteredAppend(a, b[..|b| - 1], term);
    }
  }

  /** A pruned entry is kept again, and pruning it again changes nothing. */
  lemma PrunedStable(item: MenuItem, term: string)
    requires Keeps(item, term)
    ensures Keeps(Pruned(item, term), term)
    ensures Pruned(Pruned(item, term), term) == Pruned(item, term)
  {
    if item.children.Some? {
      MatchingChildrenIdempotent(item.children.value, term);
    }
  }

  /** The positions of `items` that pass the keep rule, in increasing order. */
  function KeptPositions(items: seq<MenuItem>, term: string): (ix: seq<nat>)
    ensures |ix| <= |items|
  {
    if items == [] then []
    else
      var n := |items| - 1;
      KeptPositions(items[..n], term) + (if Keeps(items[n], term) then [n] else [])
  }

  lemma {:induction false} KeptPositionsIncreasing(items: seq<MenuItem>, term: string)
    ensures forall j :: 0 <= j < |KeptPositions(items, term)| ==> KeptPositions(items, term)[j] < |items|
    ensures forall j, k :: 0 <= j < k < |KeptPositions(items, term)| ==> KeptPositions(items, term)[j] < KeptPositions(items, term)[k]
  {
    if items != [] {
      KeptPositionsIncreasing(items[..|items| - 1], term);
    }
  }

  lemma {:induction false} KeptPositionsExact(items: seq<MenuItem>, term: string)
    ensures forall i :: 0 <= i < |items| ==> (i in KeptPositions(items, term) <==> Keeps(items[i], term))
  {
    if items != [] {
      var n := |items| - 1;
      var init := items[..n];
      KeptPositionsExact(init, term);
      KeptPositionsIncreasing(init, term);
      forall i | 0 <= i < |items| ensures i in KeptPositions(items, term) <==> Keeps(items[i], term) {
        if i < n {
          assert items[i] == init[i];
        }
      }
    }
  }

  lemma {:induction false} KeptPositionsSelect(items: seq<MenuItem>, term: string)
    ensures |KeptPositions(items, term)| == |Filtered(items, term)|
    ensures forall j :: 0 <= j < |KeptPositions(items, term)| ==>
      KeptPositions(items, term)[j] < |items| && Filtered(items, term)[j] == Pruned(items[KeptPositions(items, term)[j]], term)
  {
    if items != [] {
      var n := |items| - 1;
      var init := items[..n];
      KeptPositionsSelect(init, term);
      KeptPositionsIncreasing(items, term);
      var ix := KeptPositions(items, term);
      var r := Filtered(items, term);
      assert r == Filtered(init, term) + (if Keeps(items[n], term) then [Pruned(items[n], term)] else []);
      forall j | 0 <= j < |ix| ensures r[j] == Pruned(items[ix[j]], term) {
        if j < |KeptPositions(init, term)| {
          assert r[j] == Filtered(init, term)[j];
        }
      }
    }
  }

  /**
   * Soundness, completeness and order of the filter: `ix` lists, increasing,
   * exactly the positions of the kept input entries, and the output holds the
   * pruned copies of those entries in that order.
   */
  lemma FilterSelects(items: seq<MenuItem>, term: string) returns (ix: seq<nat>)
    ensures |ix| == |Filtered(items, term)|
    ensures forall j :: 0 <= j < |ix| ==> ix[j] < |items| && Filtered(items, term)[j] == Pruned(items[ix[j]], term)
    ensures forall j, k :: 0 <= j < k < |ix| ==> ix[j] < ix[k]
    ensures forall i :: 0 <= i < |items| ==> (i in ix <==> Keeps(items[i], term))
  {
    ix := KeptPositions(items, term);
    KeptPositionsIncreasing(items, term);
    KeptPositionsExact(items, term);
    KeptPositionsSelect(items, term);
  }

  /** Filtering an already filtered list with the same term returns it unchanged. */
  lemma {:induction false} FilteredIdempotent(items: seq<MenuItem>, term: string)
    ensures Filtered(Filtered(items, term), term) == Filtered(items, term)
  {
    if items != [] {
      var n := |items| - 1;
      var last := items[n];
      var front := Filtered(items[..n], term);
      FilteredIdempotent(items[..n], term);
      if Keeps(last, term) {
        PrunedStable(last, term);
        var tail := [Pruned(last, term)];
        FilteredAppend(front, tail, term);
        assert tail[..0] == [];
        assert Filtered(tail, term) == Filtered([], term) + tail;
        assert Filtered(items, term) == front + tail;
      } else {
        assert Filtered(items, term) == front;
      }
    }
  }
}
