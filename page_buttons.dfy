/**
 * The pieces both list pages render below their posts: the row of
 * pagination buttons and the shortened post previews.
 */
module PageButtons {
  import opened Pagination

  /** One element of the pagination row: Previous and Next carry the page
      they go to; a numbered button knows whether it is the active one. */
  datatype PageItem =
    | PrevButton(target: int)
    | PageButton(page: int, active: bool)
    | Ellipsis
    | NextButton(target: int)

  /** The numbers of the numbered buttons, left to right. */
  function Numbers(items: seq<PageItem>): (ns: seq<int>)
    ensures |ns| <= |items|
  {
    if items == [] then []
    else (if items[0].PageButton? then [items[0].page] else []) + Numbers(items[1..])
  }

  /** How many buttons are marked active. */
  function ActiveCount(items: seq<PageItem>): nat
  {
    if items == [] then 0
    else (if items[0].PageButton? && items[0].active then 1 else 0) + ActiveCount(items[1..])
  }

  /** How many ellipses the row shows. */
  function EllipsisCount(items: seq<PageItem>): nat
  {
    if items == [] then 0
    else (if items[0].Ellipsis? then 1 else 0) + EllipsisCount(items[1..])
  }

  /** The counts of a row are the sums of the counts of its two halves. */
  lemma CountsAppend(a: seq<PageItem>, b: seq<PageItem>)
    ensures Numbers(a + b) == Numbers(a) + Numbers(b)
    ensures ActiveCount(a + b) == ActiveCount(a) + ActiveCount(b)
    ensures EllipsisCount(a + b) == EllipsisCount(a) + EllipsisCount(b)
  {
    NumbersAppend(a, b);
    ActiveAppend(a, b);
    EllipsisAppend(a, b);
  }

  lemma {:induction false} NumbersAppend(a: seq<PageItem>, b: seq<PageItem>)
    ensures Numbers(a + b) == Numbers(a) + Numbers(b)
  {
    if a == [] {
      assert a + b == b;
    } else {
      var ab := a + b;
      assert ab[0] == a[0] && ab[1..] == a[1..] + b;
      NumbersAppend(a[1..], b);
      var head: seq<int> := if a[0].PageButton? then [a[0].page] else [];
      assert Numbers(ab) == head + Numbers(a[1..] + b);
      assert Numbers(a) == head + Numbers(a[1..]);
      assert head + (Numbers(a[1..]) + Numbers(b)) == head + Numbers(a[1..]) + Numbers(b);
    }
  }

  lemma {:induction false} ActiveAppend(a: seq<PageItem>, b: seq<PageItem>)
    ensures ActiveCount(a + b) == ActiveCount(a) + ActiveCount(b)
  {
    if a == [] {
      assert a + b == b;
    } else {
      assert (a + b)[1..] == a[1..] + b;
      ActiveAppend(a[1..], b);
    }
  }

  lemma {:induction false} EllipsisAppend(a: seq<PageItem>, b: seq<PageItem>)
    ensures EllipsisCount(a + b) == EllipsisCount(a) + EllipsisCount(b)
  {
    if a == [] {
      assert a + b == b;
    } else {
      assert (a + b)[1..] == a[1..] + b;
      EllipsisAppend(a[1..], b);
    }
  }

  /** The integers `lo..hi`, ascending; empty when `hi < lo`. */
  function Ints(lo: int, hi: int): (r: seq<int>)
    ensures |r| == if lo <= hi then hi - lo + 1 else 0
    ensures forall k :: 0 <= k < |r| ==> r[k] == lo + k
  {
    if lo <= hi then seq(hi - lo + 1, k => lo + k) else []
  }

  predicate Increasing(s: seq<int>)
  {
    forall i, j :: 0 <= i < j < |s| ==> s[i] < s[j]
  }

  /** The buttons `lo..hi` of the `for` loops, the one equal to `current`
      marked active. */
  function Buttons(lo: int, hi: int, current: int): (r: seq<PageItem>)
    ensures |r| == if lo <= hi then hi - lo + 1 else 0
    ensures forall k :: 0 <= k < |r| ==> r[k] == PageButton(lo + k, lo + k == current)
  {
    if lo <= hi then seq(hi - lo + 1, k => PageButton(lo + k, lo + k == current)) else []
  }

  /** The buttons show the numbers `lo..hi` in order, no ellipsis, and one
      active button exactly when `current` is among them. */
  lemma {:induction false} ButtonsCounts(lo: int, hi: int, current: int)
    ensures Numbers(Buttons(lo, hi, current)) == Ints(lo, hi)
    ensures ActiveCount(Buttons(lo, hi, current)) == if lo <= current <= hi then 1 else 0
    ensures EllipsisCount(Buttons(lo, hi, current)) == 0
    decreases if lo <= hi then hi - lo + 1 else 0
  {
    if lo <= hi {
      var r := Buttons(lo, hi, current);
      assert r == [PageButton(lo, lo == current)] + Buttons(lo + 1, hi, current);
      assert r[1..] == Buttons(lo + 1, hi, current);
      ButtonsCounts(lo + 1, hi, current);
      assert Ints(lo, hi) == [lo] + Ints(lo + 1, hi);
    }
  }

  /** The buttons after the last one a loop has pushed. */
  lemma ButtonsSnoc(lo: int, i: int, current: int)
    requires lo <= i
    ensures Buttons(lo, i, current) == Buttons(lo, i - 1, current) + [PageButton(i, i == current)]
  {
  }

  /** The `for` loop both pages run: pushes the buttons `lo..hi` after
      `pages`, the one equal to `current` marked active. */
  method PushButtons(pages: seq<PageItem>, lo: int, hi: int, current: int)
    returns (pushed: seq<PageItem>)
    ensures pushed == pages + Buttons(lo, hi, current)
  {
    pushed := pages;
    var i := lo;
    while i <= hi
      invariant lo <= i <= if lo <= hi + 1 then hi + 1 else lo
      invariant pushed == pages + Buttons(lo, i - 1, current)
    {
      ButtonsSnoc(lo, i, current);
      pushed := pushed + [PageButton(i, i == current)];
      i := i + 1;
    }
  }

  /** `truncateContent`: content longer than `maxLength` is cut to its first
      `maxLength` characters followed by `...`. */
  function Truncate(content: string, maxLength: nat): (shown: string)
    ensures |content| <= maxLength ==> shown == content
    ensures |content| > maxLength ==> |shown| == maxLength + 3 && shown[maxLength..] == "..."
    ensures |shown| <= maxLength + 3
    ensures shown[..Min(|content|, maxLength)] == content[..Min(|content|, maxLength)]
  {
    if |content| <= maxLength then content else content[..maxLength] + "..."
  }

  /** Shortening a shortened preview again changes nothing. */
  lemma TruncateIdempotent(content: string, maxLength: nat)
    ensures Truncate(Truncate(content, maxLength), maxLength) == Truncate(content, maxLength)
  {
    var once := Truncate(content, maxLength);
    if |content| > maxLength {
      assert once[..maxLength] == content[..maxLength];
    }
  }

  /** Two contents of more than `maxLength` characters show the same
      preview exactly when they start alike. */
  lemma TruncateCollides(a: string, b: string, maxLength: nat)
    requires |a| > maxLength && |b| > maxLength
    ensures Truncate(a, maxLength) == Truncate(b, maxLength) <==> a[..maxLength] == b[..maxLength]
  {
    if Truncate(a, maxLength) == Truncate(b, maxLength) {
      assert Truncate(a, maxLength)[..maxLength] == a[..maxLength];
      assert Truncate(b, maxLength)[..maxLength] == b[..maxLength];
    }
  }
}
