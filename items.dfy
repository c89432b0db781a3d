/** The `Item` record of the page and the pure list transforms its handlers
    apply: the prepend of a new item, the `map` that rewrites the edited item,
    the `filter` that deletes and the `filter` that searches, and the `find`
    that loads an item into the form. */
module Items {
  import opened Wrappers
  import opened Text

  /** One entry of the list. `description` is optional: absent (`undefined`)
      is distinct from the empty string. `createdAt` is an ISO-8601 timestamp,
      kept here as the opaque string it is stored as. */
  datatype Item = Item(id: string, title: string, description: Option<string>, createdAt: string)

  /** `it.description || ""`: an absent description reads as the empty string. */
  function DescriptionText(d: Option<string>): string {
    match d
    case None => ""
    case Some(s) => s
  }

  // ---------------------------------------------------------------------------
  // Identity and well-formedness of a list

  predicate HasId(s: seq<Item>, id: string) {
    exists k :: 0 <= k < |s| && s[k].id == id
  }

  /** No two entries share an `id`. */
  ghost predicate UniqueIds(s: seq<Item>) {
    forall i, j :: 0 <= i < j < |s| ==> s[i].id != s[j].id
  }

  /** Every title is non-blank, as the submit handler requires of what it stores. */
  ghost predicate TitlesPresent(s: seq<Item>) {
    forall k :: 0 <= k < |s| ==> Trim(s[k].title) != ""
  }

  // ---------------------------------------------------------------------------
  // Order-preserving subsequences

  /** `r` is obtained from `s` by dropping some entries and keeping the order of
      the rest. */
  ghost predicate IsSubsequence(r: seq<Item>, s: seq<Item>)
    decreases |s|
  {
    r == [] || (s != [] && ((r[0] == s[0] && IsSubsequence(r[1..], s[1..])) || IsSubsequence(r, s[1..])))
  }

  lemma {:induction false} SubsequenceMembers(r: seq<Item>, s: seq<Item>)
    requires IsSubsequence(r, s)
    ensures forall x :: x in r ==> x in s
    decreases |s|
  {
    if r != [] {
      if r[0] == s[0] && IsSubsequence(r[1..], s[1..]) {
        SubsequenceMembers(r[1..], s[1..]);
        assert forall x :: x in r ==> x == r[0] || x in r[1..];
      } else {
        SubsequenceMembers(r, s[1..]);
      }
    }
  }

  /** Dropping entries cannot create a duplicate `id`. */
  lemma {:induction false} SubsequenceKeepsUniqueIds(r: seq<Item>, s: seq<Item>)
    requires IsSubsequence(r, s) && UniqueIds(s)
    ensures UniqueIds(r)
    decreases |s|
  {
    if r != [] {
      assert UniqueIds(s[1..]);
      if r[0] == s[0] && IsSubsequence(r[1..], s[1..]) {
        SubsequenceKeepsUniqueIds(r[1..], s[1..]);
        SubsequenceMembers(r[1..], s[1..]);
        forall i, j | 0 <= i < j < |r| ensures r[i].id != r[j].id {
          if i == 0 {
            assert r[j] in s[1..];
            var k :| 0 <= k < |s[1..]| && s[1..][k] == r[j];
            assert s[k + 1] == r[j];
          } else {
            assert r[i] == r[1..][i - 1] && r[j] == r[1..][j - 1];
          }
        }
      } else {
        SubsequenceKeepsUniqueIds(r, s[1..]);
      }
    }
  }

  /** Dropping entries cannot create a blank title. */
  lemma SubsequenceKeepsTitles(r: seq<Item>, s: seq<Item>)
    requires IsSubsequence(r, s) && TitlesPresent(s)
    ensures TitlesPresent(r)
  {
    SubsequenceMembers(r, s);
    forall k | 0 <= k < |r| ensures Trim(r[k].title) != "" {
      assert r[k] in s;
    }
  }

  // ---------------------------------------------------------------------------
  // Array.prototype.filter

  /** `s.filter(keep)`. */
  function Filter(s: seq<Item>, keep: Item -> bool): (r: seq<Item>)
    ensures |r| <= |s|
  {
    if s == [] then []
    else if keep(s[0]) then [s[0]] + Filter(s[1..], keep)
    else Filter(s[1..], keep)
  }

  /** `filter` keeps the order of what it keeps. */
  lemma {:induction false} FilterIsSubsequence(s: seq<Item>, keep: Item -> bool)
    ensures IsSubsequence(Filter(s, keep), s)
  {
    if s != [] {
      FilterIsSubsequence(s[1..], keep);
      var r := Filter(s, keep);
      if keep(s[0]) {
        assert r[0] == s[0] && r[1..] == Filter(s[1..], keep);
      }
    }
  }

  /** `filter` keeps every occurrence of an entry it accepts and no occurrence
      of one it rejects. */
  lemma {:induction false} FilterCount(s: seq<Item>, keep: Item -> bool, x: Item)
    ensures multiset(Filter(s, keep))[x] == if keep(x) then multiset(s)[x] else 0
  {
    if s != [] {
      FilterCount(s[1..], keep, x);
      assert s == [s[0]] + s[1..];
    }
  }

  /** Membership form of `FilterCount`: an entry is in the result exactly when
      it is in the input and accepted. */
  lemma FilterMembers(s: seq<Item>, keep: Item -> bool)
    ensures forall x :: x in Filter(s, keep) <==> x in s && keep(x)
  {
    forall x ensures x in Filter(s, keep) <==> x in s && keep(x) {
      FilterCount(s, keep, x);
    }
  }

  /** A filter that accepts every entry returns the list unchanged. */
  lemma {:induction false} FilterKeepsAll(s: seq<Item>, keep: Item -> bool)
    requires forall k :: 0 <= k < |s| ==> keep(s[k])
    ensures Filter(s, keep) == s
  {
    if s != [] {
      assert keep(s[0]);
      FilterKeepsAll(s[1..], keep);
    }
  }

  /** Two tests that agree on every entry of the list filter it alike. */
  lemma {:induction false} FilterAgree(s: seq<Item>, keep: Item -> bool, keep': Item -> bool)
    requires forall k :: 0 <= k < |s| ==> keep(s[k]) == keep'(s[k])
    ensures Filter(s, keep) == Filter(s, keep')
  {
    if s != [] {
      assert keep(s[0]) == keep'(s[0]);
      FilterAgree(s[1..], keep, keep');
    }
  }

  // ---------------------------------------------------------------------------
  // Search (the `filtered` view)

  /** The search predicate: the lowercased title or the lowercased description
      (absent read as "") includes the lowercased query. */
  predicate Matches(it: Item, query: string) {
    Includes(ToLower(it.title), ToLower(query))
    || Includes(ToLower(DescriptionText(it.description)), ToLower(query))
  }

  function Search(s: seq<Item>, query: string): (r: seq<Item>)
    ensures IsSubsequence(r, s)
    ensures forall x :: x in r <==> x in s && Matches(x, query)
  {
    FilterIsSubsequence(s, it => Matches(it, query));
    FilterMembers(s, it => Matches(it, query));
    Filter(s, it => Matches(it, query))
  }

  /** Search never drops a matching entry and never lets a non-matching one
      through, counting duplicates too. */
  lemma SearchCount(s: seq<Item>, query: string, x: Item)
    ensures multiset(Search(s, query))[x] == if Matches(x, query) then multiset(s)[x] else 0
  {
    FilterCount(s, it => Matches(it, query), x);
  }

  /** An empty query lists everything, in order. */
  lemma SearchEmptyQuery(s: seq<Item>)
    ensures Search(s, "") == s
  {
    forall k | 0 <= k < |s| ensures Matches(s[k], "") {
      IncludesEmpty(ToLower(s[k].title));
    }
    FilterKeepsAll(s, it => Matches(it, ""));
  }

  /** A query is found alike whatever the case of its ASCII letters. */
  lemma SearchCaseInsensitive(s: seq<Item>, query: string, query': string)
    requires SameUpToAsciiCase(query, query')
    ensures Search(s, query) == Search(s, query')
  {
    ToLowerIdentifiesCase(query, query');
    FilterAgree(s, it => Matches(it, query), it => Matches(it, query'));
  }

  /** An item matches alike whatever the case of the ASCII letters of its title
      and description. */
  lemma MatchesCaseInsensitive(it: Item, it': Item, query: string)
    requires SameUpToAsciiCase(it.title, it'.title)
    requires SameUpToAsciiCase(DescriptionText(it.description), DescriptionText(it'.description))
    ensures Matches(it, query) == Matches(it', query)
  {
    ToLowerIdentifiesCase(it.title, it'.title);
    ToLowerIdentifiesCase(DescriptionText(it.description), DescriptionText(it'.description));
  }

  /** The search gives the same result as for the lowercased query. */
  lemma SearchIgnoresQueryCase(s: seq<Item>, query: string)
    ensures Search(s, query) == Search(s, ToLower(query))
  {
    LowerSameUpToCase(query);
    SearchCaseInsensitive(s, query, ToLower(query));
  }

  /** Lower-case and upper-case spellings of a title are found alike. */
  lemma MatchesIgnoresTitleCase(it: Item, query: string)
    ensures Matches(it, query) == Matches(it.(title := ToLower(it.title)), query)
  {
    LowerSameUpToCase(it.title);
    MatchesCaseInsensitive(it, it.(title := ToLower(it.title)), query);
  }

  // ---------------------------------------------------------------------------
  // Delete

  /** `prev.filter((x) => x.id !== id)`. */
  function RemoveId(s: seq<Item>, id: string): (r: seq<Item>)
    ensures IsSubsequence(r, s)
    ensures !HasId(r, id)
    ensures forall x :: x in r <==> x in s && x.id != id
  {
    FilterIsSubsequence(s, (x: Item) => x.id != id);
    FilterMembers(s, (x: Item) => x.id != id);
    var r := Filter(s, (x: Item) => x.id != id);
    assert forall k :: 0 <= k < |r| ==> r[k] in r;
    r
  }

  /** Deleting keeps every other entry, including its duplicates. */
  lemma RemoveIdCount(s: seq<Item>, id: string, x: Item)
    ensures multiset(RemoveId(s, id))[x] == if x.id != id then multiset(s)[x] else 0
  {
    FilterCount(s, (y: Item) => y.id != id, x);
  }

  /** Deleting an `id` that is not there changes nothing. */
  lemma RemoveAbsentId(s: seq<Item>, id: string)
    requires !HasId(s, id)
    ensures RemoveId(s, id) == s
  {
    FilterKeepsAll(s, (x: Item) => x.id != id);
  }

  lemma RemoveIdKeepsInvariants(s: seq<Item>, id: string)
    requires UniqueIds(s) && TitlesPresent(s)
    ensures UniqueIds(RemoveId(s, id)) && TitlesPresent(RemoveId(s, id))
  {
    SubsequenceKeepsUniqueIds(RemoveId(s, id), s);
    SubsequenceKeepsTitles(RemoveId(s, id), s);
  }

  // ---------------------------------------------------------------------------
  // Update

  /** `prev.map((it) => it.id === id ? { ...it, title, description } : it)`:
      every entry with that `id` gets the new title and description and keeps
      its `id` and `createdAt`; every other entry is left as it is. */
  function UpdateMatching(s: seq<Item>, id: string, title: string, description: Option<string>): (r: seq<Item>)
    ensures |r| == |s|
    ensures forall k :: 0 <= k < |s| ==> r[k].id == s[k].id && r[k].createdAt == s[k].createdAt
    ensures forall k :: 0 <= k < |s| && s[k].id == id ==> r[k].title == title && r[k].description == description
    ensures forall k :: 0 <= k < |s| && s[k].id != id ==> r[k] == s[k]
  {
    if s == [] then []
    else
      var head := if s[0].id == id then s[0].(title := title, description := description) else s[0];
      [head] + UpdateMatching(s[1..], id, title, description)
  }

  /** Updating an `id` that is not there changes nothing. */
  lemma UpdateAbsentId(s: seq<Item>, id: string, title: string, description: Option<string>)
    requires !HasId(s, id)
    ensures UpdateMatching(s, id, title, description) == s
  {
  }

  /** The update keeps every `id` in place, so it keeps them unique. */
  lemma UpdateKeepsUniqueIds(s: seq<Item>, id: string, title: string, description: Option<string>)
    requires UniqueIds(s)
    ensures UniqueIds(UpdateMatching(s, id, title, description))
  {
  }

  /** The update keeps the `id`s, so uniqueness; and with a non-blank title it
      keeps every title non-blank. */
  lemma UpdateKeepsInvariants(s: seq<Item>, id: string, title: string, description: Option<string>)
    requires UniqueIds(s) && TitlesPresent(s) && Trim(title) != ""
    ensures UniqueIds(UpdateMatching(s, id, title, description))
    ensures TitlesPresent(UpdateMatching(s, id, title, description))
  {
  }

  /** Once an item is deleted, submitting its edit (the form stays in edit
      mode after a delete) leaves the list as the delete left it. */
  lemma UpdateAfterRemoveIsNoop(s: seq<Item>, id: string, title: string, description: Option<string>)
    ensures UpdateMatching(RemoveId(s, id), id, title, description) == RemoveId(s, id)
  {
    UpdateAbsentId(RemoveId(s, id), id, title, description);
  }

  // ---------------------------------------------------------------------------
  // Create

  /** The item the create path builds: the trimmed title, and the trimmed
      description or none when that is empty (`description.trim() || undefined`). */
  function NewItem(id: string, title: string, description: string, createdAt: string): Item {
    Item(id, Trim(title), if Trim(description) == "" then None else Some(Trim(description)), createdAt)
  }

  /** What the create path stores: the draft title with its surrounding
      whitespace cut off, and a description that is absent exactly when the
      draft is blank and otherwise the draft with its surrounding whitespace
      cut off. Both are stated through `IsTrimmed`, which does not mention
      `Trim`. */
  lemma NewItemShape(id: string, title: string, description: string, createdAt: string)
    ensures var it := NewItem(id, title, description, createdAt);
      it.id == id && it.createdAt == createdAt
      && it.title == Trim(title)
      && (exists i, j :: IsTrimmed(title, i, j) && it.title == title[i..j])
      && Trim(it.title) == it.title
      && (it.description.None? <==> AllWhitespace(description))
      && (it.description.Some? ==>
            it.description.value == Trim(description)
            && (exists i, j :: IsTrimmed(description, i, j) && it.description.value == description[i..j])
            && it.description.value != "" && Trim(it.description.value) == it.description.value)
  {
    TrimSpec(title);
    TrimSpec(description);
    TrimIdempotent(title);
    TrimIdempotent(description);
    TrimEmptyIffBlank(description);
  }

  /** Prepending an item with a fresh `id` keeps the `id`s unique. */
  lemma PrependKeepsUniqueIds(s: seq<Item>, it: Item)
    requires UniqueIds(s) && !HasId(s, it.id)
    ensures UniqueIds([it] + s)
  {
    var r := [it] + s;
    forall i, j | 0 <= i < j < |r| ensures r[i].id != r[j].id {
      if i == 0 { assert r[j] == s[j - 1]; } else { assert r[i] == s[i - 1] && r[j] == s[j - 1]; }
    }
  }

  /** Prepending an item with a non-blank title keeps every title non-blank. */
  lemma PrependKeepsTitles(s: seq<Item>, it: Item)
    requires TitlesPresent(s) && Trim(it.title) != ""
    ensures TitlesPresent([it] + s)
  {
    var r := [it] + s;
    forall k | 0 <= k < |r| ensures Trim(r[k].title) != "" {
      if k > 0 { assert r[k] == s[k - 1]; }
    }
  }

  // ---------------------------------------------------------------------------
  // Find

  /** `items.find((x) => x.id === id)`: the first entry with that `id`, if any. */
  function Find(s: seq<Item>, id: string): (r: Option<Item>)
    ensures r.None? <==> !HasId(s, id)
    ensures r.Some? ==> (r.value.id == id
      && exists k :: 0 <= k < |s| && s[k] == r.value && (forall m :: 0 <= m < k ==> s[m].id != id))
  {
    if s == [] then None
    else if s[0].id == id then
      Some(s[0])
    else
      var r := Find(s[1..], id);
      assert HasId(s, id) ==> HasId(s[1..], id) by {
        if HasId(s, id) {
          var k :| 0 <= k < |s| && s[k].id == id;
          assert s[1..][k - 1].id == id;
        }
      }
      assert HasId(s[1..], id) ==> HasId(s, id) by {
        if HasId(s[1..], id) {
          var k :| 0 <= k < |s[1..]| && s[1..][k].id == id;
          assert s[k + 1].id == id;
        }
      }
      if r.Some? then
        var k :| 0 <= k < |s[1..]| && s[1..][k] == r.value
          && (forall m :: 0 <= m < k ==> s[1..][m].id != id);
        assert s[k + 1] == r.value;
        assert forall m :: 0 <= m < k + 1 ==> s[m].id != id by {
          forall m | 0 <= m < k + 1 ensures s[m].id != id {
            if m > 0 { assert s[m] == s[1..][m - 1]; }
          }
        }
        r
      else
        r
  }

  // ---------------------------------------------------------------------------
  // Load

  /** What the mount effect reads back: nothing (`getItem` gave `null` or ""),
      text `JSON.parse` rejected, or a decoded list. */
  datatype Stored = Missing | Malformed | Decoded(items: seq<Item>)
}
