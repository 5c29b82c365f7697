/** The searches of the boot for the last programmed page. */
module Search {

  function Pow2(b: nat): (n: nat)
    ensures n >= 1
  {
    if b == 0 then 1 else 2 * Pow2(b - 1)
  }

  // ----- inside one erase unit

  /** Exactly the pages up to last are programmed. */
  ghost predicate FilledTo(used: seq<bool>, last: nat) {
    last < |used| && forall j :: 0 <= j < |used| ==> (used[j] <==> j <= last)
  }

  /** DIV_BY_2 */
  function Half(x: nat): (h: nat)
    ensures 2 * h <= x <= 2 * h + 1
  {
    x / 2
  }

  /** findLastValidPageInEU: b halvings of a unit with 2^b pages, then one look at the end. */
  method FindLastInEu(used: seq<bool>, b: nat, ghost filled: nat) returns (last: nat)
    requires |used| == Pow2(b) && FilledTo(used, filled)
    ensures last == filled
  {
    var start: nat, end: nat := 0, |used| - 1;
    var i: nat := b;
    while i > 0
      invariant i <= b && 0 <= start <= end < |used| && end - start <= Pow2(i)
      invariant start <= filled && (end < |used| - 1 ==> filled < end) && (end == |used| - 1 ==> filled <= end)
      decreases i
    {
      var mid := Half(start + end);
      if used[mid] {
        start := mid;
      } else {
        end := mid;
      }
      i := i - 1;
    }
    last := start;
    if used[end] {
      last := end;
    }
  }

  // ----- across the units of a slot

  /** A unit of a slot: whether it is good, and the pages of the unit used in its place, which
      is itself, its replacement, or none. */
  datatype Eu = Eu(good: bool, pages: seq<bool>, replaced: bool)

  predicate Begun(e: Eu)
    requires |e.pages| > 0
  {
    (e.good || e.replaced) && e.pages[0]
  }

  ghost predicate SlotOk(eus: seq<Eu>, b: nat) {
    && |eus| > 0
    && (forall k :: 0 <= k < |eus| ==> |eus[k].pages| == Pow2(b))
    && (forall k :: 0 <= k < |eus| && !eus[k].good && eus[k].replaced ==> eus[k].pages[0])
  }

  /** The pages of the slot are programmed exactly up to page j of unit k. */
  ghost predicate SlotFilledTo(eus: seq<Eu>, k: nat, j: nat) {
    && k < |eus| && FilledTo(eus[k].pages, j) && (eus[k].good || eus[k].replaced)
    && (forall i :: 0 <= i < k ==> (eus[i].good || eus[i].replaced) && |eus[i].pages| > 0 && eus[i].pages[0])
    && (forall i :: k < i < |eus| && (eus[i].good || eus[i].replaced) ==> |eus[i].pages| > 0 && !eus[i].pages[0])
  }

  /** findLastValidPageInSlot, by unit numbers: the search for the last unit that was begun. */
  method FindLastInSlot(eus: seq<Eu>, b: nat, ghost k: nat, ghost j: nat) returns (eu: nat, page: nat)
    requires SlotOk(eus, b) && SlotFilledTo(eus, k, j)
    ensures eu == k && page == j
  {
    var start: nat, end: nat := 0, |eus| - 1;
    while end - start > 1
      invariant 0 <= start <= end < |eus| && start <= k
      invariant k <= end && (end < |eus| - 1 ==> k < end)
      decreases end - start
    {
      var mid := Half(start + end);
      if !eus[mid].good {
        if !eus[mid].replaced {
          end := mid;
        } else {
          start := mid;
        }
      } else if !eus[mid].pages[0] {
        end := mid;
      } else {
        start := mid;
      }
    }
    eu := if Begun(eus[end]) then end else start;
    page := FindLastInEu(eus[eu].pages, b, j);
  }
}
