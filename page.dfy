/** The `Page` component: the state it keeps with `useState` and the event
    handlers that change it. Each handler is one atomic step on the fields;
    the list transforms it applies are the functions of module `Items`. */
module CrudPage {
  import opened Wrappers
  import opened Text
  import opened Items

  /** What a submit did: rejected the blank title (the `alert` path), took the
      create path or took the update path. */
  datatype Outcome = Rejected | Created | Updated

  /** `if (editingId)` is a truthiness test: `null` and the empty string both
      mean create mode. */
  predicate InEditMode(editingId: Option<string>) {
    editingId.Some? && editingId.value != ""
  }

  class Page {
    /** The list, newest first. */
    var items: seq<Item>
    /** The draft title and description bound to the form inputs. */
    var title: string
    var description: string
    /** The `id` of the item being edited, or none in create mode. */
    var editingId: Option<string>
    /** The search box. */
    var query: string

    /** The list invariant the handlers keep: unique `id`s and non-blank titles.
        A list read back from storage need not satisfy it. */
    ghost predicate WellFormed()
      reads this
    {
      UniqueIds(items) && TitlesPresent(items)
    }

    /** The initial `useState` values. */
    constructor()
      ensures items == [] && title == "" && description == "" && editingId == None && query == ""
      ensures WellFormed()
    {
      items := [];
      title := "";
      description := "";
      editingId := None;
      query := "";
    }

    /** The mount effect: nothing stored keeps the list, text that does not
        parse empties it, and a decoded list replaces it as it is. */
    method Load(stored: Stored)
      modifies this`items
      ensures stored.Missing? ==> items == old(items)
      ensures stored.Malformed? ==> items == []
      ensures stored.Decoded? ==> items == stored.items
    {
      match stored
      case Missing =>
      case Malformed => items := [];
      case Decoded(parsed) => items := parsed;
    }

    /** `resetForm`, also the cancel button: clears both drafts and leaves edit
        mode, and touches nothing else. */
    method ResetForm()
      modifies this`title, this`description, this`editingId
      ensures title == "" && description == "" && editingId == None
    {
      title := "";
      description := "";
      editingId := None;
    }

    /** The reset button shown in create mode: clears both drafts only. */
    method ClearDraft()
      modifies this`title, this`description
      ensures title == "" && description == ""
    {
      title := "";
      description := "";
    }

    /** The `onChange` handlers of the three inputs. */
    method SetTitle(value: string)
      modifies this`title
      ensures title == value
    {
      title := value;
    }

    method SetDescription(value: string)
      modifies this`description
      ensures description == value
    {
      description := value;
    }

    method SetQuery(value: string)
      modifies this`query
      ensures query == value
    {
      query := value;
    }

    /** `handleCreateOrUpdate`. `freshId` stands for `uid()` and `createdAt`
        for `new Date().toISOString()`; only the create path uses them.
        A blank title changes nothing. In edit mode every item with the
        edited `id` gets the trimmed title and the draft description as typed;
        in create mode a new item goes in front. Either way the form is reset. */
    method Submit(freshId: string, createdAt: string) returns (outcome: Outcome)
      modifies this`items, this`title, this`description, this`editingId
      ensures outcome == Rejected <==> AllWhitespace(old(title))
      ensures outcome == Updated <==> !AllWhitespace(old(title)) && InEditMode(old(editingId))
      ensures outcome == Rejected ==>
        items == old(items) && title == old(title) && description == old(description) && editingId == old(editingId)
      ensures outcome == Created ==> items == [NewItem(freshId, old(title), old(description), createdAt)] + old(items)
      ensures outcome == Updated ==>
        items == UpdateMatching(old(items), old(editingId).value, Trim(old(title)), Some(old(description)))
      ensures outcome != Rejected ==> title == "" && description == "" && editingId == None
      ensures old(WellFormed()) && (outcome != Created || !HasId(old(items), freshId)) ==> WellFormed()
      ensures old(UniqueIds(items)) && (outcome != Created || !HasId(old(items), freshId)) ==> UniqueIds(items)
    {
      var t := Trim(title);
      TrimEmptyIffBlank(title);
      if t == "" {
        return Rejected;
      }
      TrimIdempotent(title);
      if InEditMode(editingId) {
        if WellFormed() {
          UpdateKeepsInvariants(items, editingId.value, t, Some(description));
        }
        if UniqueIds(items) {
          UpdateKeepsUniqueIds(items, editingId.value, t, Some(description));
        }
        items := UpdateMatching(items, editingId.value, t, Some(description));
        ResetForm();
        return Updated;
      }
      var newItem := NewItem(freshId, title, description, createdAt);
      if UniqueIds(items) && !HasId(items, freshId) {
        PrependKeepsUniqueIds(items, newItem);
      }
      if WellFormed() && !HasId(items, freshId) {
        PrependKeepsTitles(items, newItem);
      }
      items := [newItem] + items;
      ResetForm();
      return Created;
    }

    /** `startEdit`: an `id` not in the list changes nothing; otherwise the
        first item with that `id` is loaded into the form and edit mode is
        entered. The list is never touched. */
    method StartEdit(id: string)
      modifies this`title, this`description, this`editingId
      ensures !HasId(items, id) ==> title == old(title) && description == old(description) && editingId == old(editingId)
      ensures HasId(items, id) ==>
        editingId == Some(id) && title == Find(items, id).value.title
        && description == DescriptionText(Find(items, id).value.description)
    {
      var found := Find(items, id);
      if found.None? {
        return;
      }
      editingId := Some(id);
      title := found.value.title;
      description := DescriptionText(found.value.description);
    }

    /** `handleDelete`, behind its confirmation: removes every item with that
        `id`. It does not leave edit mode. */
    method Delete(id: string, confirmed: bool)
      modifies this`items
      ensures items == if confirmed then RemoveId(old(items), id) else old(items)
      ensures old(WellFormed()) ==> WellFormed()
      ensures old(UniqueIds(items)) ==> UniqueIds(items)
    {
      if !confirmed {
        return;
      }
      if WellFormed() {
        RemoveIdKeepsInvariants(items, id);
      }
      if UniqueIds(items) {
        SubsequenceKeepsUniqueIds(RemoveId(items, id), items);
      }
      items := RemoveId(items, id);
    }

    /** `handleClearAll`, behind its confirmation. It does not leave edit mode. */
    method ClearAll(confirmed: bool)
      modifies this`items
      ensures items == if confirmed then [] else old(items)
      ensures old(WellFormed()) ==> WellFormed()
    {
      if !confirmed {
        return;
      }
      items := [];
    }

    /** The `filtered` view: the items the search box matches, in list order,
        and the whole list for an empty query. */
    function Filtered(): (r: seq<Item>)
      reads this
      ensures IsSubsequence(r, items)
      ensures forall x :: x in r <==> x in items && Matches(x, query)
      ensures query == "" ==> r == items
    {
      SearchEmptyQuery(items);
      Search(items, query)
    }
  }

  /** A typed string with no whitespace at either end is accepted as a title
      and stored as it is. */
  lemma PlainText(s: string)
    requires s != [] && !IsWhitespace(s[0]) && !IsWhitespace(s[|s| - 1])
    ensures !AllWhitespace(s) && Trim(s) == s
  {
    TrimUntouched(s);
  }

  /** The query "call" is already lower case. */
  lemma LowerCall()
    ensures ToLower("call") == "call"
  {
    var q := ToLower("call");
    assert q[0] == LowerChar('c') && q[1] == LowerChar('a') && q[2] == LowerChar('l') && q[3] == LowerChar('l');
  }

  /** "call" is found in the title "Call mom", whatever the description. */
  lemma CallMatches(call: Item)
    requires call.title == "Call mom"
    ensures Matches(call, "call")
  {
    LowerCall();
    var t := ToLower(call.title);
    assert t[0] == LowerChar('C') && t[1] == LowerChar('a') && t[2] == LowerChar('l') && t[3] == LowerChar('l');
    assert t[..4] == "call";
    assert OccursAt(t, "call", 0);
  }

  /** "call" is in neither "Buy milk and eggs" nor an empty description. */
  lemma MilkMisses(milk: Item)
    requires milk.title == "Buy milk and eggs" && milk.description == Some("")
    ensures !Matches(milk, "call")
  {
    LowerCall();
    assert ToLower("") == "" && DescriptionText(milk.description) == "";
    assert 'c' !in milk.title && 'C' !in milk.title;
    LowerAvoids(milk.title, 'c');
    NotIncludesFirst(ToLower(milk.title), "call");
    NotIncludesFirst("", "call");
  }

  /** The search for "call" keeps the "Call mom" item and drops the other. */
  lemma WalkthroughSearch(call: Item, milk: Item)
    requires call.title == "Call mom" && milk.title == "Buy milk and eggs" && milk.description == Some("")
    ensures Search([call, milk], "call") == [call]
  {
    CallMatches(call);
    MilkMisses(milk);
    var keep := (it: Item) => Matches(it, "call");
    assert Search([call, milk], "call") == Filter([call, milk], keep);
    assert [call, milk][1..] == [milk] && [milk][1..] == [];
    assert Filter([milk], keep) == [];
  }

  /** What the handlers' list transforms do to a two-item list whose second
      item is the one addressed. */
  lemma SecondOfTwo(first: Item, second: Item, title: string, description: Option<string>)
    requires first.id != second.id
    ensures Find([first, second], second.id) == Some(second)
    ensures UpdateMatching([first, second], second.id, title, description)
      == [first, second.(title := title, description := description)]
  {
    assert [first, second][1..] == [second];
  }

  lemma RemoveFirstOfTwo(first: Item, second: Item)
    requires first.id != second.id
    ensures RemoveId([first, second], first.id) == [second]
  {
    var keep := (x: Item) => x.id != first.id;
    assert RemoveId([first, second], first.id) == Filter([first, second], keep);
    assert [first, second][1..] == [second] && [second][1..] == [];
    assert Filter([second], keep) == [second];
  }

  /** Types a title with nothing to trim and a description with nothing to
      trim into the form in create mode, and submits it. */
  method CreateStep(page: Page, title: string, description: string, id: string, createdAt: string)
    requires title != [] && !IsWhitespace(title[0]) && !IsWhitespace(title[|title| - 1])
    requires description == [] || (!IsWhitespace(description[0]) && !IsWhitespace(description[|description| - 1]))
    requires page.editingId == None
    modifies page
    ensures page.items == [Item(id, title, if description == "" then None else Some(description), createdAt)] + old(page.items)
    ensures page.title == "" && page.description == "" && page.editingId == None && page.query == old(page.query)
  {
    PlainText(title);
    TrimUntouched(description);
    var item := NewItem(id, title, description, createdAt);
    assert item == Item(id, title, if description == "" then None else Some(description), createdAt);
    page.SetTitle(title);
    page.SetDescription(description);
    assert page.title == title && page.description == description && page.editingId == None;
    assert page.items == old(page.items);
    var created := page.Submit(id, createdAt);
    assert created == Created;
  }

  /** Opens the second of two items for editing, retypes its title and
      submits, leaving its description as the form showed it. */
  method RetitleSecondStep(page: Page, title: string)
    requires |page.items| == 2 && page.items[0].id != page.items[1].id && page.items[1].id != ""
    requires title != [] && !IsWhitespace(title[0]) && !IsWhitespace(title[|title| - 1])
    modifies page
    ensures page.items == [old(page.items[0]),
      old(page.items[1]).(title := title, description := Some(DescriptionText(old(page.items[1]).description)))]
    ensures page.title == "" && page.description == "" && page.editingId == None && page.query == old(page.query)
  {
    var first, second := page.items[0], page.items[1];
    assert page.items == [first, second];
    PlainText(title);
    SecondOfTwo(first, second, title, Some(DescriptionText(second.description)));
    assert HasId(page.items, second.id) by { assert page.items[1].id == second.id; }
    page.StartEdit(second.id);
    page.SetTitle(title);
    var updated := page.Submit("", "");
  }

  /** A walk through the page: create "Buy milk", create "Call mom" with a
      description, retitle the first, search for "call", delete the second,
      clear the list. */
  method Walkthrough() returns (afterCreates: seq<Item>, afterUpdate: seq<Item>, hits: seq<Item>,
                                afterDelete: seq<Item>, afterClear: seq<Item>)
    ensures afterCreates == [Item("c2", "Call mom", Some("Ask about trip"), "t2"), Item("m1", "Buy milk", None, "t1")]
    ensures afterUpdate == [afterCreates[0], afterCreates[1].(title := "Buy milk and eggs", description := Some(""))]
    ensures hits == [afterUpdate[0]]
    ensures afterDelete == [afterUpdate[1]]
    ensures afterClear == []
  {
    var page := new Page();
    var milk := Item("m1", "Buy milk", None, "t1");
    var call := Item("c2", "Call mom", Some("Ask about trip"), "t2");
    CreateStep(page, "Buy milk", "", "m1", "t1");
    assert page.items == [milk];
    CreateStep(page, "Call mom", "Ask about trip", "c2", "t2");
    assert page.items == [call, milk];
    afterCreates := page.items;

    RetitleSecondStep(page, "Buy milk and eggs");
    var milk' := milk.(title := "Buy milk and eggs", description := Some(""));
    assert page.items == [call, milk'];
    afterUpdate := page.items;

    page.SetQuery("call");
    hits := page.Filtered();
    WalkthroughSearch(call, milk');

    RemoveFirstOfTwo(call, milk');
    page.Delete("c2", true);
    afterDelete := page.items;

    page.ClearAll(true);
    afterClear := page.items;
  }
}
