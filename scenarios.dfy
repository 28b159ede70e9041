/**
  Concrete runs of the slash-command menu: what the filter returns for typed
  queries, and what key presses on the open list commit.
 */
module Scenarios {
  import opened Wrappers
  import opened AsciiText
  import opened Subsequences
  import opened SlashCommands
  import opened CommandsListModel

  const Heading1 := Command("Heading 1", SetHeading(1))
  const Heading2 := Command("Heading 2", SetHeading(2))
  const BulletList := Command("Bullet List", ToggleBulletList)
  const Bold := Command("Bold", ToggleBold)

  /** The catalog's titles, lower-cased. */
  const LowerTitles: seq<string> := ["heading 1", "heading 2", "bullet list", "numbered list", "bold", "italic"]

  /** A string lower-cases to `t` when it does so character by character. */
  lemma LowerIs(s: string, t: string)
    requires |s| == |t| && forall i :: 0 <= i < |s| ==> LowerChar(s[i]) == t[i]
    ensures Lower(s) == t
  {
  }

  /** Catalog entry `i` lower-cases to `LowerTitles[i]`. */
  lemma CatalogLower(i: nat)
    requires i < 6
    ensures Lower(Catalog()[i].title) == LowerTitles[i]
  {
  }

  /** What the filter keeps of catalog entry `i` for the lower-cased query `lq`. */
  function KeepAt(i: nat, lq: string): seq<Command>
    requires i < 6
  {
    if StartsWith(LowerTitles[i], lq) then [Catalog()[i]] else []
  }

  lemma FilterOne(i: nat, q: string)
    requires i < 6
    ensures Filter([Catalog()[i]], q) == KeepAt(i, Lower(q))
  {
    CatalogLower(i);
    assert [Catalog()[i]][1..] == [];
  }

  /** The filter over the catalog, written out entry by entry. */
  lemma ItemsByEntry(q: string)
    ensures Items(q) == KeepAt(0, Lower(q)) + KeepAt(1, Lower(q)) + KeepAt(2, Lower(q))
                      + KeepAt(3, Lower(q)) + KeepAt(4, Lower(q)) + KeepAt(5, Lower(q))
  {
    var c := Catalog();
    assert c == [c[0]] + [c[1]] + [c[2]] + [c[3]] + [c[4]] + [c[5]];
    FilterAppend([c[0]] + [c[1]] + [c[2]] + [c[3]] + [c[4]], [c[5]], q);
    FilterAppend([c[0]] + [c[1]] + [c[2]] + [c[3]], [c[4]], q);
    FilterAppend([c[0]] + [c[1]] + [c[2]], [c[3]], q);
    FilterAppend([c[0]] + [c[1]], [c[2]], q);
    FilterAppend([c[0]], [c[1]], q);
    FilterOne(0, q);
    FilterOne(1, q);
    FilterOne(2, q);
    FilterOne(3, q);
    FilterOne(4, q);
    FilterOne(5, q);
  }

  /** Entry `i` is dropped when its lower-cased title differs from `lq` at position `k`. */
  lemma Mismatch(i: nat, lq: string, k: nat)
    requires i < 6 && k < |lq| && k < |LowerTitles[i]| && LowerTitles[i][k] != lq[k]
    ensures KeepAt(i, lq) == []
  {
    if |lq| <= |LowerTitles[i]| {
      assert LowerTitles[i][..|lq|][k] == LowerTitles[i][k];
    }
  }

  /** "head" in any of these spellings selects the two headings, in catalog order. */
  lemma HeadQuery(q: string)
    requires q == "head" || q == "HEAD" || q == "Head"
    ensures Items(q) == [Heading1, Heading2]
  {
    var lq := Lower(q);
    assert lq == "head" by { LowerIs(q, "head"); }
    assert KeepAt(2, lq) + KeepAt(3, lq) + KeepAt(4, lq) + KeepAt(5, lq) == [] by {
      Mismatch(2, lq, 0);
      Mismatch(3, lq, 0);
      Mismatch(4, lq, 0);
      Mismatch(5, lq, 0);
    }
    assert KeepAt(0, lq) + KeepAt(1, lq) == [Heading1, Heading2];
    ItemsByEntry(q);
  }

  lemma QueryB()
    ensures Items("b") == [BulletList, Bold]
  {
    var lq := Lower("b");
    assert lq == "b" by { LowerIs("b", "b"); }
    assert KeepAt(0, lq) + KeepAt(1, lq) + KeepAt(3, lq) + KeepAt(5, lq) == [] by {
      Mismatch(0, lq, 0);
      Mismatch(1, lq, 0);
      Mismatch(3, lq, 0);
      Mismatch(5, lq, 0);
    }
    assert KeepAt(2, lq) == [BulletList] && KeepAt(4, lq) == [Bold];
    ItemsByEntry("b");
  }

  lemma QueryBo()
    ensures Items("bo") == [Bold]
  {
    var lq := Lower("bo");
    assert lq == "bo" by { LowerIs("bo", "bo"); }
    assert KeepAt(0, lq) + KeepAt(1, lq) + KeepAt(2, lq) + KeepAt(3, lq) + KeepAt(5, lq) == [] by {
      Mismatch(0, lq, 0);
      Mismatch(1, lq, 0);
      Mismatch(2, lq, 1);
      Mismatch(3, lq, 0);
      Mismatch(5, lq, 0);
    }
    assert KeepAt(4, lq) == [Bold];
    ItemsByEntry("bo");
  }

  lemma QueryBold()
    ensures Items("bold") == [Bold]
  {
    var lq := Lower("bold");
    assert lq == "bold" by { LowerIs("bold", "bold"); }
    assert KeepAt(0, lq) + KeepAt(1, lq) + KeepAt(2, lq) + KeepAt(3, lq) + KeepAt(5, lq) == [] by {
      Mismatch(0, lq, 0);
      Mismatch(1, lq, 0);
      Mismatch(2, lq, 1);
      Mismatch(3, lq, 0);
      Mismatch(5, lq, 0);
    }
    assert KeepAt(4, lq) == [Bold];
    ItemsByEntry("bold");
  }

  /** "b" keeps Bullet List and Bold; typing "o" next narrows the list to Bold. */
  lemma NarrowingQuery()
    ensures Items("b") == [BulletList, Bold]
    ensures Items("bo") == [Bold]
  {
    QueryB();
    QueryBo();
  }

  /** "/" opens the full list; ArrowDown twice then Enter commits Bullet List. */
  method ArrowDownTwiceThenEnter() returns (committed: Option<Command>)
    ensures committed == Some(BulletList)
  {
    var items := Items("");
    assert items == Catalog() by { ItemsEmptyQuery(); }
    var list := new CommandsList(items);
    list.ArrowDown();
    assert list.selectedIndex == 1 by { assert Next(0, 6) == 1; }
    list.ArrowDown();
    assert list.selectedIndex == 2 by { assert Next(1, 6) == 2; }
    committed := list.Enter();
  }

  /** "/bold" then Enter deletes the five-character trigger range and toggles bold. */
  method SlashBoldThenEnter(from: int) returns (steps: seq<Step>)
    ensures steps == [Focus, DeleteRange(Range(from, from + 5)), Apply(ToggleBold)]
  {
    QueryBold();
    var list := new CommandsList(Items("bold"));
    var _, committed := list.KeyDown("Enter");
    steps := Run(committed.value, Range(from, from + |"/bold"|));
  }

  /** Escape is consumed by the suggestion hook and commits nothing. */
  method EscapeCommitsNothing() returns (consumed: bool, committed: Option<Command>)
    ensures consumed && committed == None
  {
    ItemsEmptyQuery();
    var list := new CommandsList(Items(""));
    var intercepted;
    consumed, intercepted, committed := KeyPress(list, "Escape");
  }

  /**
    The index is not reset when the filter narrows: hovering Italic (index 5)
    and then typing "b" leaves the index past the two remaining items, so
    Enter commits nothing; ArrowDown then wraps it back to 0.
   */
  method StaleIndexAfterNarrowing() returns (committed: Option<Command>, afterDown: nat)
    ensures committed == None && afterDown == 0
  {
    var items := Items("");
    assert items == Catalog() by { ItemsEmptyQuery(); }
    var list := new CommandsList(items);
    list.Hover(5);
    var narrowed := Items("b");
    assert |narrowed| == 2 by { QueryB(); }
    list.UpdateItems(narrowed);
    committed := list.Enter();
    list.ArrowDown();
    assert list.selectedIndex == 0 by { assert Next(5, 2) == 0; }
    afterDown := list.selectedIndex;
  }
}
