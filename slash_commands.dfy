/**
  The slash-command catalog and its query filter (`suggestion.items` in
  RichTextEditor.tsx): six fixed commands, narrowed by a case-insensitive
  prefix match of the typed query against each title.
 */
module SlashCommands {
  import opened AsciiText
  import opened Subsequences

  /** The formatting change a command asks the document engine for. */
  datatype Action =
    | SetHeading(level: nat)
    | ToggleBulletList
    | ToggleOrderedList
    | ToggleBold
    | ToggleItalic

  datatype Command = Command(title: string, action: Action)

  /** The span of the trigger character and the typed query. */
  datatype Range = Range(from: int, to: int)

  /** One link of the engine's command chain. */
  datatype Step = Focus | DeleteRange(range: Range) | Apply(action: Action)

  /**
    The catalog, in the order in which it is listed: six commands, no two with
    the same title, the headings first.
   */
  function Catalog(): (c: seq<Command>)
    ensures |c| == 6
    ensures forall i, j :: 0 <= i < j < |c| ==> c[i].title != c[j].title
    ensures c[0].action == SetHeading(1) && c[1].action == SetHeading(2)
  {
    [ Command("Heading 1", SetHeading(1)),
      Command("Heading 2", SetHeading(2)),
      Command("Bullet List", ToggleBulletList),
      Command("Numbered List", ToggleOrderedList),
      Command("Bold", ToggleBold),
      Command("Italic", ToggleItalic) ]
  }

  /** The command's chain: focus the editor, delete the trigger range, apply the format. */
  function Run(c: Command, range: Range): (steps: seq<Step>)
    ensures |steps| > 0 && steps[0] == Focus
    ensures forall k :: 0 <= k < |steps| && steps[k].DeleteRange? ==> steps[k].range == range
    ensures exists i, j :: 0 <= i < j < |steps| && steps[i] == DeleteRange(range) && steps[j] == Apply(c.action)
    ensures forall k :: 0 <= k < |steps| && steps[k].Apply? ==> k == |steps| - 1 && steps[k].action == c.action
  {
    var steps := [Focus, DeleteRange(range), Apply(c.action)];
    assert steps[1] == DeleteRange(range) && steps[2] == Apply(c.action);
    steps
  }

  /** The filter predicate: the lower-cased title starts with the lower-cased query. */
  predicate Matches(c: Command, query: string)
  {
    StartsWith(Lower(c.title), Lower(query))
  }

  /** A command matches when its lower-cased title is the lower-cased query followed by something. */
  lemma MatchesIsPrefix(c: Command, query: string)
    ensures Matches(c, query) <==> exists rest :: Lower(c.title) == Lower(query) + rest
  {
    StartsWithIsPrefix(Lower(c.title), Lower(query));
  }

  /** `cmds.filter(item => Matches(item, query))`. */
  function Filter(cmds: seq<Command>, query: string): (r: seq<Command>)
    ensures IsSubsequence(r, cmds)
    ensures forall c :: c in r <==> c in cmds && Matches(c, query)
    decreases |cmds|
  {
    if cmds == [] then []
    else if Matches(cmds[0], query) then [cmds[0]] + Filter(cmds[1..], query)
    else
      var r := Filter(cmds[1..], query);
      SubsequenceSkip(r, cmds[0], cmds[1..]);
      assert [cmds[0]] + cmds[1..] == cmds;
      r
  }

  /** `suggestion.items({ query })`. */
  function Items(query: string): (r: seq<Command>)
    ensures IsSubsequence(r, Catalog())
    ensures forall c :: c in r <==> c in Catalog() && Matches(c, query)
  {
    Filter(Catalog(), query)
  }

  /** Filtering a concatenation filters each part. */
  lemma {:induction false} FilterAppend(s: seq<Command>, t: seq<Command>, query: string)
    ensures Filter(s + t, query) == Filter(s, query) + Filter(t, query)
    decreases |s|
  {
    if s != [] {
      assert (s + t)[0] == s[0] && (s + t)[1..] == s[1..] + t;
      FilterAppend(s[1..], t, query);
    } else {
      assert s + t == t;
    }
  }

  /** The filter never duplicates an entry. */
  lemma ItemsDistinct(query: string)
    ensures Distinct(Items(query))
  {
    SubsequenceKeepsDistinct(Items(query), Catalog());
  }

  /** An empty query keeps every command, in order. */
  lemma {:induction false} FilterEmptyQuery(cmds: seq<Command>)
    ensures Filter(cmds, "") == cmds
    decreases |cmds|
  {
    if cmds != [] {
      FilterEmptyQuery(cmds[1..]);
      assert Matches(cmds[0], "");
    }
  }

  lemma ItemsEmptyQuery()
    ensures Items("") == Catalog()
  {
    FilterEmptyQuery(Catalog());
  }

  /** The filter sees the query only through its lower-cased form. */
  lemma {:induction false} FilterCaseInsensitive(cmds: seq<Command>, q1: string, q2: string)
    requires CaseVariant(q1, q2)
    ensures Filter(cmds, q1) == Filter(cmds, q2)
    decreases |cmds|
  {
    CaseVariantIffSameLower(q1, q2);
    if cmds != [] {
      FilterCaseInsensitive(cmds[1..], q1, q2);
    }
  }

  lemma ItemsCaseInsensitive(q1: string, q2: string)
    requires CaseVariant(q1, q2)
    ensures Items(q1) == Items(q2)
  {
    FilterCaseInsensitive(Catalog(), q1, q2);
  }

  /** A command that matches a query matches every prefix of it. */
  lemma MatchesPrefix(c: Command, q1: string, q2: string)
    requires StartsWith(q2, q1) && Matches(c, q2)
    ensures Matches(c, q1)
  {
    LowerKeepsPrefix(q2, q1);
    StartsWithTransitive(Lower(c.title), Lower(q2), Lower(q1));
  }

  /** Typing more narrows the result: extending the query keeps a subsequence. */
  lemma {:induction false} FilterNarrows(cmds: seq<Command>, q1: string, q2: string)
    requires StartsWith(q2, q1)
    ensures IsSubsequence(Filter(cmds, q2), Filter(cmds, q1))
    decreases |cmds|
  {
    if cmds != [] {
      FilterNarrows(cmds[1..], q1, q2);
      if Matches(cmds[0], q2) {
        MatchesPrefix(cmds[0], q1, q2);
      } else if Matches(cmds[0], q1) {
        SubsequenceSkip(Filter(cmds[1..], q2), cmds[0], Filter(cmds[1..], q1));
      }
    }
  }

  lemma ItemsNarrow(q1: string, q2: string)
    requires StartsWith(q2, q1)
    ensures IsSubsequence(Items(q2), Items(q1))
  {
    FilterNarrows(Catalog(), q1, q2);
  }
}
