/** Reserve erase units: the tag that names the unit they stand in for, and the
    searches for and among them. */
module Reserve {
  import opened Flash

  /** The build with 512-byte pages: pages of a unit and of a slot, slots, and the bits of
      a tag below the slot number. */
  const PAGES_PER_EU := 32
  const EUS_PER_SLOT := 4
  const PAGES_PER_SLOT := 128
  const SLOTS := 512
  const TAG_EUS := 2048

  /** SEQ_NO_SLOT_AND_EU_OFFSET: the tag of an erased unit. */
  const NO_TAG := 0xffffff

  // ----- addresses and tags

  /** CALC_ADDRESS */
  function Address(slot: nat, eu: nat, page: nat): nat { PAGES_PER_SLOT * slot + PAGES_PER_EU * eu + page }

  /** GET_SLOT, CALC_EU_OFFSET and CALC_OFFSET_IN_EU */
  function SlotOf(phy: nat): (s: nat)
    ensures PAGES_PER_SLOT * s <= phy < PAGES_PER_SLOT * s + PAGES_PER_SLOT
  {
    phy / PAGES_PER_SLOT
  }

  function EuOf(phy: nat): (e: nat)
    ensures e < EUS_PER_SLOT && Address(SlotOf(phy), e, 0) <= phy < Address(SlotOf(phy), e, PAGES_PER_EU)
  {
    (phy - PAGES_PER_SLOT * SlotOf(phy)) / PAGES_PER_EU
  }

  function PageOf(phy: nat): (p: nat)
    ensures p < PAGES_PER_EU && phy == Address(SlotOf(phy), EuOf(phy), p)
  {
    phy - Address(SlotOf(phy), EuOf(phy), 0)
  }

  function EuStart(phy: nat): nat { phy - PageOf(phy) }

  /** CALCULATE_SLOT_ID_AND_EU_OFFSET */
  function Tag(phy: nat): nat { EuOf(phy) + TAG_EUS * SlotOf(phy) }

  /** EXTRACT_ADDR_FROM_SLOT_ID_AND_EU_OFFSET */
  function FromTag(tag: nat): nat { Address(tag / TAG_EUS % SLOTS, tag % TAG_EUS, 0) }

  lemma AddressParts(slot: nat, eu: nat, page: nat)
    requires eu < EUS_PER_SLOT && page < PAGES_PER_EU
    ensures var a := Address(slot, eu, page);
            SlotOf(a) == slot && EuOf(a) == eu && PageOf(a) == page && EuStart(a) == Address(slot, eu, 0)
  {
  }

  lemma StartParts(phy: nat)
    ensures EuStart(phy) == Address(SlotOf(phy), EuOf(phy), 0)
    ensures SlotOf(EuStart(phy)) == SlotOf(phy) && EuOf(EuStart(phy)) == EuOf(phy)
  {
    AddressParts(SlotOf(phy), EuOf(phy), 0);
  }

  /** A tag names the unit of the page it was made for, and units have different tags. */
  lemma TagRoundTrip(phy: nat, other: nat)
    requires phy < SLOTS * PAGES_PER_SLOT
    ensures FromTag(Tag(phy)) == EuStart(phy) && Tag(phy) != NO_TAG
    ensures Tag(phy) == Tag(other) <==> EuStart(phy) == EuStart(other)
  {
    hide EuStart;
    TagParts(EuOf(phy), SlotOf(phy));
    TagParts(EuOf(other), SlotOf(other));
    StartParts(phy);
    StartParts(other);
    hide SlotOf, EuOf;
    if EuStart(phy) == EuStart(other) {
      assert SlotOf(phy) == SlotOf(other) && EuOf(phy) == EuOf(other);
    }
  }

  lemma TagParts(eu: nat, slot: nat)
    requires eu < EUS_PER_SLOT
    ensures (eu + TAG_EUS * slot) / TAG_EUS == slot && (eu + TAG_EUS * slot) % TAG_EUS == eu
  {
  }

  // ----- the search

  /** What the first page of a unit says: whether the unit is good, its tag and its copy-back flag. */
  datatype Unit = Unit(good: bool, tag: nat, copyBack: bool)

  /** The units of the flash by the address of their first page, and the reserve slots. */
  datatype Units = Units(at: map<nat, Unit>, slots: seq<nat>) {
    ghost predicate Ok() {
      forall s, e :: s in slots && 0 <= e < EUS_PER_SLOT ==> Address(s, e, 0) in at
    }
  }

  /** A unit in a reserve slot. */
  ghost predicate InReserve(u: Units, a: nat) {
    exists i, e :: 0 <= i < |u.slots| && 0 <= e < EUS_PER_SLOT && a == Address(u.slots[i], e, 0)
  }

  predicate StandsFor(u: Unit, tag: nat) { u.good && u.tag == tag && !u.copyBack }

  predicate IsSpare(u: Unit, a: nat, copyBackEu: nat) { u.good && a != copyBackEu && u.tag == NO_TAG }

  /** logicalAddressToReservePhysical */
  method Find(u: Units, phy: nat) returns (r: Option<nat>)
    requires u.Ok()
    ensures r.Some? ==>
      EuStart(r.value) in u.at && InReserve(u, EuStart(r.value)) && PageOf(r.value) == PageOf(phy) && StandsFor(u.at[EuStart(r.value)], Tag(phy))
    ensures r.None? ==> forall a :: InReserve(u, a) && a in u.at ==> !StandsFor(u.at[a], Tag(phy))
  {
    var i := 0;
    while i < |u.slots|
      invariant i <= |u.slots|
      invariant forall j, e :: 0 <= j < i && 0 <= e < EUS_PER_SLOT && Address(u.slots[j], e, 0) in u.at ==>
        !StandsFor(u.at[Address(u.slots[j], e, 0)], Tag(phy))
    {
      hide SlotOf, EuOf, PageOf, EuStart, Tag;
      var e, n := EuOf(phy), 0;
      var a := Address(u.slots[i], e, 0);
      while true
        invariant n < EUS_PER_SLOT && e == (if EuOf(phy) + n < EUS_PER_SLOT then EuOf(phy) + n else EuOf(phy) + n - EUS_PER_SLOT)
        invariant a == Address(u.slots[i], e, 0)
        invariant forall f :: 0 <= f < EUS_PER_SLOT && Passed(EuOf(phy), n, f) && Address(u.slots[i], f, 0) in u.at ==>
          !StandsFor(u.at[Address(u.slots[i], f, 0)], Tag(phy))
        decreases EUS_PER_SLOT - n
      {
        if StandsFor(u.at[a], Tag(phy)) {
          AddressParts(u.slots[i], e, PageOf(phy));
          return Some(a + PageOf(phy));
        }
        e, a, n := e + 1, a + PAGES_PER_EU, n + 1;
        if e == EUS_PER_SLOT {
          a, e := a - PAGES_PER_SLOT, 0;
        }
        if e == EuOf(phy) {
          break;
        }
      }
      i := i + 1;
    }
    r := None;
  }

  /** The units a cyclic search from one of them has passed after n steps. */
  predicate Passed(from: nat, n: nat, e: nat) {
    from <= e < from + n || from <= e + EUS_PER_SLOT < from + n
  }

  /** e is the first and f the second good unit of the slot. */
  ghost predicate SecondGood(u: Units, slot: nat, e: nat, f: nat)
    requires u.Ok() && slot in u.slots && e < f < EUS_PER_SLOT
  {
    && u.at[Address(slot, e, 0)].good && u.at[Address(slot, f, 0)].good
    && forall g :: 0 <= g < f && g != e ==> !u.at[Address(slot, g, 0)].good
  }

  /** get_valid_eu_addr_in_location(first reserve slot, 2): the second good unit. */
  method CopyBackEu(u: Units, slot: nat) returns (r: Option<nat>)
    requires u.Ok() && slot in u.slots
    ensures r.Some? ==> exists e, f :: 0 <= e < f < EUS_PER_SLOT && SecondGood(u, slot, e, f) && r.value == Address(slot, f, 0)
    ensures r.None? ==> forall e, f :: 0 <= e < f < EUS_PER_SLOT ==>
      !(u.at[Address(slot, e, 0)].good && u.at[Address(slot, f, 0)].good)
  {
    var a, left := Address(slot, 0, 0), 2;
    ghost var n, first := 0, 0;
    while true
      invariant n < EUS_PER_SLOT && a == Address(slot, n, 0) && 1 <= left <= 2
      invariant left == 2 ==> forall g :: 0 <= g < n ==> !u.at[Address(slot, g, 0)].good
      invariant left == 1 ==> first < n && u.at[Address(slot, first, 0)].good
      invariant left == 1 ==> forall g :: 0 <= g < n && g != first ==> !u.at[Address(slot, g, 0)].good
      decreases EUS_PER_SLOT - n
    {
      if u.at[a].good {
        left := left - 1;
        if left == 0 {
          assert SecondGood(u, slot, first, n);
          return Some(a);
        }
        first := n;
      }
      a, n := a + PAGES_PER_EU, n + 1;
      if a >= Address(slot + 1, 0, 0) {
        break;
      }
    }
    r := None;
  }

  /** allocReserveEU: an untagged good unit other than the copy-back unit whenever there is one. */
  method Alloc(u: Units, phy: nat, copyBackEu: nat) returns (r: Option<nat>)
    requires u.Ok()
    ensures r.Some? ==>
      && EuStart(r.value) in u.at && InReserve(u, EuStart(r.value)) && PageOf(r.value) == PageOf(phy)
      && IsSpare(u.at[EuStart(r.value)], EuStart(r.value), copyBackEu)
    ensures r.None? ==> forall a :: InReserve(u, a) && a in u.at ==> !IsSpare(u.at[a], a, copyBackEu)
  {
    var i := 0;
    while i < |u.slots|
      invariant i <= |u.slots|
      invariant forall j, e :: 0 <= j < i && 0 <= e < EUS_PER_SLOT && Address(u.slots[j], e, 0) in u.at ==>
        !IsSpare(u.at[Address(u.slots[j], e, 0)], Address(u.slots[j], e, 0), copyBackEu)
    {
      hide SlotOf, EuOf, PageOf, EuStart, Tag;
      var e, n := EuOf(phy), 0;
      var a := Address(u.slots[i], e, 0);
      while true
        invariant n < EUS_PER_SLOT && e == (if EuOf(phy) + n < EUS_PER_SLOT then EuOf(phy) + n else EuOf(phy) + n - EUS_PER_SLOT)
        invariant a == Address(u.slots[i], e, 0)
        invariant forall f :: 0 <= f < EUS_PER_SLOT && Passed(EuOf(phy), n, f) && Address(u.slots[i], f, 0) in u.at ==>
          !IsSpare(u.at[Address(u.slots[i], f, 0)], Address(u.slots[i], f, 0), copyBackEu)
        decreases EUS_PER_SLOT - n
      {
        if u.at[a].good && copyBackEu != a {
          if u.at[a].tag == NO_TAG {
            AddressParts(u.slots[i], e, PageOf(phy));
            return Some(a + PageOf(phy));
          }
        }
        e, a, n := e + 1, a + PAGES_PER_EU, n + 1;
        if e == EUS_PER_SLOT {
          a, e := a - PAGES_PER_SLOT, 0;
        }
        if e == EuOf(phy) {
          break;
        }
      }
      i := i + 1;
    }
    r := None;
  }

  // ----- lookup inverts allocation

  /** No two units stand for the same one. */
  ghost predicate OneEach(u: Units) {
    forall a, b :: Replaces(u, a) && Replaces(u, b) && a != b ==> u.at[a].tag != u.at[b].tag
  }

  ghost predicate Replaces(u: Units, a: nat) {
    InReserve(u, a) && a in u.at && u.at[a].good && !u.at[a].copyBack && u.at[a].tag != NO_TAG
  }

  /** What writing the first page of a replacement leaves behind. */
  ghost function Tagged(u: Units, a: nat, tag: nat): Units
    requires a in u.at
  {
    u.(at := u.at[a := u.at[a].(tag := tag, copyBack := false)])
  }

  /** After a unit was allocated for a page whose unit had no replacement, and tagged, it is the
      only one that stands for the unit; all other replacements stay what they were. */
  lemma TaggedFound(u: Units, phy: nat, a: nat, copyBackEu: nat)
    requires u.Ok() && OneEach(u) && phy < SLOTS * PAGES_PER_SLOT
    requires a in u.at && InReserve(u, a) && IsSpare(u.at[a], a, copyBackEu)
    requires forall b :: InReserve(u, b) && b in u.at ==> !StandsFor(u.at[b], Tag(phy))
    ensures var v := Tagged(u, a, Tag(phy));
      && v.Ok() && OneEach(v)
      && (forall b :: InReserve(v, b) && b in v.at ==> (StandsFor(v.at[b], Tag(phy)) <==> b == a))
      && (forall b, q: nat :: InReserve(v, b) && b in v.at && q < SLOTS * PAGES_PER_SLOT && EuStart(q) != EuStart(phy) ==>
           (StandsFor(v.at[b], Tag(q)) <==> StandsFor(u.at[b], Tag(q))))
  {
    hide Tag, EuStart;
    var v := Tagged(u, a, Tag(phy));
    TagRoundTrip(phy, phy);
    forall b ensures InReserve(v, b) <==> InReserve(u, b) {}
    forall b, q: nat | InReserve(v, b) && b in v.at && q < SLOTS * PAGES_PER_SLOT && EuStart(q) != EuStart(phy)
      ensures StandsFor(v.at[b], Tag(q)) <==> StandsFor(u.at[b], Tag(q))
    {
      TagRoundTrip(q, phy);
    }
    forall b, c | Replaces(v, b) && Replaces(v, c) && b != c ensures v.at[b].tag != v.at[c].tag {
      if b != a && c == a {
        assert !StandsFor(u.at[b], Tag(phy));
      } else if b == a {
        assert !StandsFor(u.at[c], Tag(phy));
      } else {
        assert Replaces(u, b) && Replaces(u, c);
      }
    }
  }

  // ----- reading through replaced units

  /** The page that the address phy of a data slot leads to, when the units of bad are bad. */
  ghost predicate LeadsTo(u: Units, bad: set<nat>, phy: nat, q: nat) {
    && phy < SLOTS * PAGES_PER_SLOT && SlotOf(phy) !in u.slots
    && if EuStart(phy) !in bad then q == phy
       else InReserve(u, EuStart(q)) && EuStart(q) in u.at && StandsFor(u.at[EuStart(q)], Tag(phy)) && PageOf(q) == PageOf(phy)
  }

  /** logicalAddressToPhysical, after the slot is known. */
  method Translate(u: Units, bad: set<nat>, phy: nat) returns (r: Option<nat>)
    requires u.Ok() && phy < SLOTS * PAGES_PER_SLOT && SlotOf(phy) !in u.slots
    ensures r.Some? ==> LeadsTo(u, bad, phy, r.value)
    ensures r.None? ==> EuStart(phy) in bad && forall q :: !LeadsTo(u, bad, phy, q)
  {
    if EuStart(phy) !in bad {
      return Some(phy);
    }
    r := Find(u, phy);
  }

  lemma ReserveSlot(u: Units, q: nat)
    requires InReserve(u, EuStart(q))
    ensures SlotOf(q) in u.slots
  {
    var i, e :| 0 <= i < |u.slots| && 0 <= e < EUS_PER_SLOT && EuStart(q) == Address(u.slots[i], e, 0);
    AddressParts(u.slots[i], e, 0);
    StartParts(q);
  }

  lemma SamePage(p: nat, q: nat)
    requires EuStart(p) == EuStart(q) && PageOf(p) == PageOf(q)
    ensures p == q
  {
  }

  /** Translation is a function, and no two addresses share a page, replaced units or not: what is
      written through one address is read back through it, and through no other. */
  lemma ReadAfterWrite<T>(u: Units, bad: set<nat>, p: nat, p1: nat, q: nat, q1: nat, mem: map<nat, T>, v: T)
    requires OneEach(u) && LeadsTo(u, bad, p, p1) && LeadsTo(u, bad, q, q1) && q1 in mem
    ensures mem[p1 := v][q1] == if q == p then v else mem[q1]
    ensures p1 == q1 <==> p == q
  {
    hide EuStart, PageOf, SlotOf, Tag;
    TagRoundTrip(p, q);
    TagRoundTrip(q, p);
    if EuStart(p) in bad { ReserveSlot(u, p1); }
    if EuStart(q) in bad { ReserveSlot(u, q1); }
    if p1 == q1 && EuStart(p) in bad {
      SamePage(p, q);
    }
    if p == q && EuStart(p) in bad {
      assert EuStart(p1) == EuStart(q1);
      SamePage(p1, q1);
    }
  }
}
