/**
  The floating command list (`CommandsList` in RichTextEditor.tsx) and the
  key handling around it. The list keeps the items it was last given and a
  highlighted index. ArrowUp and ArrowDown move the index with wrap-around,
  Enter and a click commit an item, and hovering moves the highlight. New
  items from the filter replace `items` but do NOT touch the index, so it
  can be left pointing past the end of a shorter list.
 */
module CommandsListModel {
  import opened Wrappers
  import opened SlashCommands

  /** The keys the list's document listener intercepts. */
  const NavigationKeys: seq<string> := ["ArrowUp", "ArrowDown", "Enter"]

  /** The index ArrowDown moves to: `(i + 1) % n`. */
  function Next(i: nat, n: nat): (j: nat)
    requires n > 0
    ensures j < n
  {
    (i + 1) % n
  }

  /** The index ArrowUp moves to: `(i + n - 1) % n`. */
  function Prev(i: nat, n: nat): (j: nat)
    requires n > 0
    ensures j < n
  {
    (i + n - 1) % n
  }

  /** `items[index]`, which is `undefined` outside the list, and then `if (item)`. */
  function ItemAt(items: seq<Command>, index: int): (r: Option<Command>)
    ensures r.Some? <==> 0 <= index < |items|
    ensures r.Some? ==> r.value == items[index]
  {
    if 0 <= index < |items| then Some(items[index]) else None
  }

  /**
    What the suggestion hook's `onKeyDown` returns: true means the key was
    handled. Only Escape is, and it is not one of the list's keys.
   */
  function SuggestionKeyDown(key: string): (consumed: bool)
    ensures consumed <==> key == "Escape"
    ensures consumed ==> key !in NavigationKeys
  {
    key == "Escape"
  }

  /** Moving down then up, or up then down, returns to an in-range index. */
  lemma NextPrevInverse(i: nat, n: nat)
    requires i < n
    ensures Prev(Next(i, n), n) == i
    ensures Next(Prev(i, n), n) == i
  {
    if i + 1 < n {
      ModUnique(i + 1, n, 0, i + 1);
      ModUnique(i + n, n, 1, i);
    } else {
      ModUnique(n, n, 1, 0);
      ModUnique(n - 1, n, 0, n - 1);
    }
    if i == 0 {
      ModUnique(n - 1, n, 0, n - 1);
      ModUnique(n, n, 1, 0);
    } else {
      ModUnique(i + n - 1, n, 1, i - 1);
      ModUnique(i, n, 0, i);
    }
  }

  /** The index after pressing ArrowDown `k` times. */
  function NextTimes(i: nat, n: nat, k: nat): nat
    requires n > 0
    decreases k
  {
    if k == 0 then i else Next(NextTimes(i, n, k - 1), n)
  }

  /** The index after pressing ArrowUp `k` times. */
  function PrevTimes(i: nat, n: nat, k: nat): nat
    requires n > 0
    decreases k
  {
    if k == 0 then i else Prev(PrevTimes(i, n, k - 1), n)
  }

  /** A positive multiple of a positive number is at least that number. */
  lemma MulAtLeast(k: int, n: int)
    requires n > 0 && k >= 1
    ensures k * n >= n
  {
  }

  /** Division with remainder has one answer: `q * n + r` with `0 <= r < n` leaves `r`. */
  lemma ModUnique(a: int, n: int, q: int, r: int)
    requires n > 0 && 0 <= r < n && a == q * n + r
    ensures a % n == r
  {
    var k := q - a / n;
    assert a == (a / n) * n + a % n;
    assert k * n == a % n - r;
    if k >= 1 {
      MulAtLeast(k, n);
    } else if k <= -1 {
      MulAtLeast(-k, n);
    }
  }

  /** Stepping by one commutes with taking the remainder. */
  lemma ModStep(a: int, n: int, d: int)
    requires n > 0 && (d == 1 || d == -1)
    ensures (a % n + d) % n == (a + d) % n
  {
    var q, r := a / n, a % n;
    assert a == q * n + r;
    if 0 <= r + d < n {
      ModUnique(a + d, n, q, r + d);
      ModUnique(r + d, n, 0, r + d);
    } else if r + d == n {
      ModUnique(a + d, n, q + 1, 0);
      ModUnique(r + d, n, 1, 0);
    } else {
      ModUnique(a + d, n, q - 1, n - 1);
      ModUnique(r + d, n, -1, n - 1);
    }
  }

  /** ArrowDown `k` times from an in-range index advances it by `k` modulo `n`. */
  lemma {:induction false} NextTimesShift(i: nat, n: nat, k: nat)
    requires i < n
    ensures NextTimes(i, n, k) == (i + k) % n
    decreases k
  {
    if k > 0 {
      NextTimesShift(i, n, k - 1);
      ModStep(i + k - 1, n, 1);
    }
  }

  /** ArrowUp `k` times from an in-range index moves it back by `k` modulo `n`. */
  lemma {:induction false} PrevTimesShift(i: nat, n: nat, k: nat)
    requires i < n
    ensures PrevTimes(i, n, k) == (i - k) % n
    decreases k
  {
    if k > 0 {
      PrevTimesShift(i, n, k - 1);
      ModStep(i - k + 1, n, -1);
      var j := PrevTimes(i, n, k - 1);
      assert Prev(j, n) == (j - 1) % n by {
        assert j + n - 1 == (j - 1) + 1 * n;
        ModShift(j - 1, n);
      }
    }
  }

  /** Adding one whole turn does not change the remainder. */
  lemma ModShift(a: int, n: int)
    requires n > 0
    ensures (a + n) % n == a % n
  {
    var q, r := a / n, a % n;
    assert a == q * n + r;
    ModUnique(a + n, n, q + 1, r);
  }

  /** Pressing ArrowDown, or ArrowUp, `n` times over `n` items is the identity. */
  lemma NavigationCycles(i: nat, n: nat)
    requires i < n
    ensures NextTimes(i, n, n) == i
    ensures PrevTimes(i, n, n) == i
  {
    NextTimesShift(i, n, n);
    PrevTimesShift(i, n, n);
    ModUnique(i + n, n, 1, i);
    ModUnique(i - n, n, -1, i);
  }

  class CommandsList {
    var items: seq<Command>
    var selectedIndex: nat

    /** The highlight is on an item of the current list. */
    predicate Highlighted()
      reads this
    {
      selectedIndex < |items|
    }

    /** `useState(0)` when the list is first rendered. */
    constructor (items: seq<Command>)
      ensures this.items == items && selectedIndex == 0
    {
      this.items := items;
      selectedIndex := 0;
    }

    /** `updateProps` with the filter's new items; the index is kept as it is. */
    method UpdateItems(newItems: seq<Command>)
      modifies this`items
      ensures items == newItems
    {
      items := newItems;
    }

    /** `selectItem(index)`: the item at `index` is committed, if there is one. */
    method SelectItem(index: int) returns (committed: Option<Command>)
      ensures committed == ItemAt(items, index)
    {
      committed := ItemAt(items, index);
    }

    method ArrowUp()
      requires |items| > 0
      modifies this`selectedIndex
      ensures selectedIndex == Prev(old(selectedIndex), |items|)
      ensures Highlighted()
    {
      selectedIndex := Prev(selectedIndex, |items|);
    }

    method ArrowDown()
      requires |items| > 0
      modifies this`selectedIndex
      ensures selectedIndex == Next(old(selectedIndex), |items|)
      ensures Highlighted()
    {
      selectedIndex := Next(selectedIndex, |items|);
    }

    /** Enter commits the highlighted item, or nothing when the index is stale. */
    method Enter() returns (committed: Option<Command>)
      ensures committed == ItemAt(items, selectedIndex)
      ensures committed.Some? <==> Highlighted()
    {
      committed := SelectItem(selectedIndex);
    }

    /** A click on the button of item `index`. */
    method Click(index: nat) returns (committed: Option<Command>)
      requires index < |items|
      ensures committed == Some(items[index])
    {
      committed := SelectItem(index);
    }

    /** The mouse entering the button of item `index`. */
    method Hover(index: nat)
      requires index < |items|
      modifies this`selectedIndex
      ensures selectedIndex == index
      ensures Highlighted()
    {
      selectedIndex := index;
    }

    /** The document `keydown` listener: navigation keys are intercepted, others ignored. */
    method KeyDown(key: string) returns (intercepted: bool, committed: Option<Command>)
      requires key == "ArrowUp" || key == "ArrowDown" ==> |items| > 0
      modifies this`selectedIndex
      ensures intercepted <==> key in NavigationKeys
      ensures key == "ArrowUp" ==> selectedIndex == Prev(old(selectedIndex), |items|)
      ensures key == "ArrowDown" ==> selectedIndex == Next(old(selectedIndex), |items|)
      ensures key != "ArrowUp" && key != "ArrowDown" ==> selectedIndex == old(selectedIndex)
      ensures committed == if key == "Enter" then ItemAt(items, old(selectedIndex)) else None
    {
      intercepted, committed := false, None;
      if key in NavigationKeys {
        intercepted := true;
        if key == "ArrowUp" {
          ArrowUp();
        } else if key == "ArrowDown" {
          ArrowDown();
        } else {
          committed := Enter();
        }
      }
    }
  }

  /**
    One key press while the menu is open: the suggestion hook sees it, and so
    does the list's document listener. Only the four menu keys have any effect
    on the list.
   */
  method KeyPress(list: CommandsList, key: string) returns (consumed: bool, intercepted: bool, committed: Option<Command>)
    requires key == "ArrowUp" || key == "ArrowDown" ==> |list.items| > 0
    modifies list`selectedIndex
    ensures consumed <==> key == "Escape"
    ensures intercepted <==> key in NavigationKeys
    ensures key == "ArrowUp" ==> list.selectedIndex == Prev(old(list.selectedIndex), |list.items|)
    ensures key == "ArrowDown" ==> list.selectedIndex == Next(old(list.selectedIndex), |list.items|)
    ensures key != "ArrowUp" && key != "ArrowDown" ==> list.selectedIndex == old(list.selectedIndex)
    ensures committed == if key == "Enter" then ItemAt(list.items, old(list.selectedIndex)) else None
    ensures key in NavigationKeys ==> !consumed
  {
    consumed := SuggestionKeyDown(key);
    intercepted, committed := list.KeyDown(key);
  }
}
