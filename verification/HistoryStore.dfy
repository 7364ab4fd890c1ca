// The A/B journal that keeps the history ring across power loss. Writing a slot can leave it as
// it was, with the new image, or with something that does not decode; the model lets the
// environment choose.
module HistoryStore {
  import opened Words
  import opened Crc
  import opened HistoryRing
  import opened HistoryImage

  const CAPACITY: nat := 64

  datatype Slots = Slots(a: Option<seq<byte>>, b: Option<seq<byte>>)

  function Contents(slot: Option<seq<byte>>): Option<(seq<Record>, u32)> {
    match slot
    case None => None
    case Some(bytes) => DecodeImage(bytes, CAPACITY)
  }

  predicate Newer(a: u32, b: u32) {
    SignedDistance(a, b) > 0
  }

  function Successor(generation: u32): u32 {
    Wrap32(generation + 1)
  }

  // The slot that holds images of a generation.
  function SlotOf(slots: Slots, generation: u32): Option<seq<byte>> {
    if generation % 2 == 0 then slots.a else slots.b
  }

  function WithSlot(slots: Slots, generation: u32, content: Option<seq<byte>>): Slots {
    if generation % 2 == 0 then slots.(a := content) else slots.(b := content)
  }

  datatype Loaded = Loaded(ok: bool, records: seq<Record>, generation: u32)

  function LoadOf(slots: Slots): Loaded {
    match (Contents(slots.a), Contents(slots.b))
    case (None, None) => Loaded(slots.a.None? && slots.b.None?, [], 0)
    case (Some((rs, g)), None) => Loaded(true, rs, g)
    case (None, Some((rs, g))) => Loaded(true, rs, g)
    case (Some((ra, ga)), Some((rb, gb))) => if Newer(ga, gb) then Loaded(true, ra, ga) else Loaded(true, rb, gb)
  }

  // What putBytes did: stored all bytes, or failed and left something in the slot.
  datatype Put = Complete | Torn(left: Option<seq<byte>>)

  function PutOf(old_: Option<seq<byte>>, image: seq<byte>, put: Put): Option<seq<byte>> {
    match put
    case Complete => Some(image)
    case Torn(left) => left
  }

  // The storage assumption: a failed or interrupted write leaves the old content, the new image,
  // or something the decoder rejects.
  predicate Plausible(old_: Option<seq<byte>>, image: seq<byte>, put: Put) {
    put.Torn? ==> put.left == old_ || put.left == Some(image) || Contents(put.left) == None
  }

  class Store {
    var slotA: Option<seq<byte>>
    var slotB: Option<seq<byte>>
    var generation: u32

    ghost function View(): Slots
      reads this
    {
      Slots(slotA, slotB)
    }

    constructor (slotA: Option<seq<byte>>, slotB: Option<seq<byte>>)
      ensures View() == Slots(slotA, slotB) && generation == 0
    {
      this.slotA, this.slotB, generation := slotA, slotB, 0;
    }

    method LoadSlot(slot: Option<seq<byte>>, ring: Ring) returns (ok: bool, generation: u32)
      requires ring.Valid() && ring.capacity == CAPACITY
      modifies ring, ring.records
      ensures ring.Valid() && ring.records == old(ring.records)
      ensures match Contents(slot)
              case None => !ok
              case Some((rs, g)) => ok && ring.Contents() == rs && generation == g
    {
      match slot
      case None => return false, 0;
      case Some(bytes) => ok, generation := Decode(bytes, ring);
    }

    method Load(ring: Ring) returns (ok: bool)
      requires ring.Valid() && ring.capacity == CAPACITY
      modifies this`generation, ring, ring.records
      ensures ring.Valid() && ring.records == old(ring.records)
      ensures Loaded(ok, ring.Contents(), generation) == LoadOf(View())
    {
      hide DecodeImage;
      var a := new Ring(CAPACITY);
      var b := new Ring(CAPACITY);
      var validA, generationA := LoadSlot(slotA, a);
      var validB, generationB := LoadSlot(slotB, b);
      if !validA && !validB {
        ring.Clear();
        generation := 0;
        return slotA.None? && slotB.None?;
      }
      if validA && (!validB || Newer(generationA, generationB)) {
        ring.Assign(a);
        generation := generationA;
      } else {
        ring.Assign(b);
        generation := generationB;
      }
      return true;
    }

    method Save(ring: Ring, put: Put) returns (ok: bool)
      requires ring.Valid() && ring.capacity == CAPACITY
      modifies this
      ensures ok == put.Complete?
      ensures var next := Successor(old(generation));
              generation == (if ok then next else old(generation)) &&
              View() == WithSlot(old(View()), next,
                                 PutOf(SlotOf(old(View()), next), Image(ring.Contents(), next, CAPACITY), put))
    {
      hide Image;
      var image := new byte[ImageLength(CAPACITY)](_ => 0);
      var nextGeneration := Wrap32(generation + 1);
      var encoded, written := Encode(ring, nextGeneration, image);
      if !encoded || written != image.Length { assert false; }
      var bytes := image[..];
      assert bytes == bytes[..written];
      if nextGeneration % 2 == 0 {
        slotA := PutOf(slotA, bytes, put);
      } else {
        slotB := PutOf(slotB, bytes, put);
      }
      if put.Torn? { return false; }
      generation := nextGeneration;
      return true;
    }
  }

  // ---- runs ----

  // What can happen to the journal: a save that returns, a save cut short by a power loss, and a
  // power loss at any other time. After a power loss the device loads before it saves again.
  datatype Event =
    | SaveReturns(records: seq<Record>, put: Put)
    | SaveInterrupted(records: seq<Record>, put: Put)
    | Restart

  // The device (slots, generation) and the history of the run: whether some save returned true,
  // the ring last saved or loaded, and the rings whose save was attempted since.
  datatype Journal = Journal(slots: Slots, generation: u32, saved: bool, settled: seq<Record>, attempted: seq<seq<Record>>)

  const BLANK: Journal := Journal(Slots(None, None), 0, false, [], [])

  // Rings as the firmware saves them: within capacity, every record stamped.
  predicate Storable(rs: seq<Record>) {
    |rs| <= CAPACITY && AllStamped(rs)
  }

  lemma {:induction false} DecodedRecordsAreStamped(s: seq<byte>, i: nat, count: nat)
    requires i <= count && 12 + 25 * count <= |s| && RecordsFrom(s, i, count).Some?
    ensures |RecordsFrom(s, i, count).value| == count - i && AllStamped(RecordsFrom(s, i, count).value)
    decreases count - i
  {
    if i == count {
    } else {
      DecodedRecordsAreStamped(s, i + 1, count);
    }
  }

  // Whatever is in the slots, a ring that was loaded may be saved again.
  lemma LoadedIsStorable(slots: Slots)
    ensures Storable(LoadOf(slots).records)
  {
    hide RecordsFrom, Crc32Of;
    StoredIsStorable(slots.a);
    StoredIsStorable(slots.b);
  }

  lemma StoredIsStorable(slot: Option<seq<byte>>)
    ensures Contents(slot).Some? ==> Storable(Contents(slot).value.0)
  {
    hide RecordsFrom, Crc32Of;
    if Contents(slot).Some? {
      var s := slot.value;
      DecodedRecordsAreStamped(s, 0, Le16(s[8], s[9]));
    }
  }

  predicate Legal(j: Journal, e: Event) {
    match e
    case Restart => true
    case SaveReturns(rs, put) =>
      Storable(rs) &&
      Plausible(SlotOf(j.slots, Successor(j.generation)), Image(rs, Successor(j.generation), CAPACITY), put)
    case SaveInterrupted(rs, put) =>
      Storable(rs) &&
      Plausible(SlotOf(j.slots, Successor(j.generation)), Image(rs, Successor(j.generation), CAPACITY), put)
  }

  function SlotsAfterSave(j: Journal, rs: seq<Record>, put: Put): Slots
    requires Storable(rs)
  {
    var next := Successor(j.generation);
    WithSlot(j.slots, next, PutOf(SlotOf(j.slots, next), Image(rs, next, CAPACITY), put))
  }

  function AfterLoad(j: Journal): Journal {
    var loaded := LoadOf(j.slots);
    j.(generation := loaded.generation, settled := loaded.records, attempted := [])
  }

  function Step(j: Journal, e: Event): Journal
    requires Legal(j, e)
  {
    match e
    case Restart => AfterLoad(j)
    case SaveReturns(rs, put) =>
      var slots := SlotsAfterSave(j, rs, put);
      if put.Complete? then Journal(slots, Successor(j.generation), true, rs, [])
      else j.(slots := slots, attempted := j.attempted + [rs])
    case SaveInterrupted(rs, put) =>
      AfterLoad(j.(slots := SlotsAfterSave(j, rs, put), attempted := j.attempted + [rs]))
  }

  predicate LegalRun(j: Journal, events: seq<Event>)
    decreases |events|
  {
    events != [] ==> Legal(j, events[0]) && LegalRun(Step(j, events[0]), events[1..])
  }

  function Run(j: Journal, events: seq<Event>): Journal
    requires LegalRun(j, events)
    decreases |events|
  {
    if events == [] then j else Run(Step(j, events[0]), events[1..])
  }

  // The current generation is readable in its slot; the other slot is unreadable, or one
  // generation behind, or one ahead with a ring whose save was attempted.
  predicate Settled(j: Journal) {
    var next := Successor(j.generation);
    Contents(SlotOf(j.slots, j.generation)) == Some((j.settled, j.generation)) &&
    match Contents(SlotOf(j.slots, next))
    case None => true
    case Some((rs, g)) => Successor(g) == j.generation || (g == next && rs in j.attempted)
  }

  // Nothing was ever loaded or saved: only slot B can hold something, the first generation.
  predicate Untouched(j: Journal) {
    !j.saved && j.generation == 0 && j.settled == [] && j.slots.a == None &&
    match Contents(j.slots.b)
    case None => true
    case Some((rs, g)) => g == 1 && rs in j.attempted
  }

  predicate Consistent(j: Journal) {
    Settled(j) || Untouched(j)
  }

  // What a load may yield: the ring last saved or loaded, or one attempted since.
  predicate Expected(j: Journal, rs: seq<Record>) {
    rs == j.settled || rs in j.attempted
  }

  // The comparison is exact across the wrap of the generation counter.
  lemma SuccessorFacts(g: u32)
    ensures (g % 2 == 0) != (Successor(g) % 2 == 0) && Successor(Successor(g)) != g
    ensures Newer(Successor(g), g) && !Newer(g, Successor(g))
  {
    assert Successor(g) == if g == TWO_32 - 1 then 0 else g + 1;
    assert Wrap32(Successor(g) - g) == 1 && Wrap32(g - Successor(g)) == TWO_32 - 1;
  }

  lemma PutSlot(j: Journal, rs: seq<Record>, put: Put)
    requires Storable(rs)
    ensures var next := Successor(j.generation);
            SlotOf(SlotsAfterSave(j, rs, put), j.generation) == SlotOf(j.slots, j.generation) &&
            SlotOf(SlotsAfterSave(j, rs, put), next) == PutOf(SlotOf(j.slots, next), Image(rs, next, CAPACITY), put)
    ensures Contents(Some(Image(rs, Successor(j.generation), CAPACITY))) == Some((rs, Successor(j.generation)))
  {
    hide Image, DecodeImage;
    SuccessorFacts(j.generation);
    ImageRoundTrip(rs, Successor(j.generation), CAPACITY);
  }

  // Loading a consistent journal yields an expected ring and settles on it.
  lemma LoadIsExpected(j: Journal)
    requires Consistent(j)
    ensures Consistent(AfterLoad(j))
    ensures Settled(j) ==> LoadOf(j.slots).ok && Settled(AfterLoad(j))
    ensures Expected(j, LoadOf(j.slots).records)
    ensures LoadOf(j.slots).ok <==> Settled(j) || j.slots.b == None || Contents(j.slots.b).Some?
  {
    hide DecodeImage;
    if Settled(j) {
      SuccessorFacts(j.generation);
      var other := Contents(SlotOf(j.slots, Successor(j.generation)));
      if other.Some? { SuccessorFacts(other.value.1); }
    }
  }

  // One event keeps the journal consistent; one that starts settled stays settled.
  lemma StepKeepsConsistent(j: Journal, e: Event)
    requires Consistent(j) && Legal(j, e)
    ensures Consistent(Step(j, e))
    ensures Settled(j) ==> Settled(Step(j, e))
  {
    hide DecodeImage, Image;
    SuccessorFacts(j.generation);
    match e {
      case Restart => LoadIsExpected(j);
      case SaveReturns(rs, put) =>
        PutSlot(j, rs, put);
        SuccessorFacts(Successor(j.generation));
      case SaveInterrupted(rs, put) =>
        PutSlot(j, rs, put);
        var torn := j.(slots := SlotsAfterSave(j, rs, put), attempted := j.attempted + [rs]);
        assert rs in torn.attempted;
        LoadIsExpected(torn);
    }
  }

  lemma {:induction false} RunKeepsConsistent(j: Journal, events: seq<Event>)
    requires Consistent(j) && LegalRun(j, events)
    ensures Consistent(Run(j, events))
    decreases |events|
  {
    if events == [] {
    } else {
      StepKeepsConsistent(j, events[0]);
      RunKeepsConsistent(Step(j, events[0]), events[1..]);
    }
  }

  lemma ConsistentGenerations(j: Journal)
    requires Consistent(j)
    ensures var a, b := Contents(j.slots.a), Contents(j.slots.b);
            (a.Some? ==> a.value.1 % 2 == 0) && (b.Some? ==> b.value.1 % 2 == 1) &&
            (a.Some? && b.Some? ==>
               (Successor(a.value.1) == b.value.1) != (Successor(b.value.1) == a.value.1) &&
               (Newer(a.value.1, b.value.1) <==> Successor(b.value.1) == a.value.1))
  {
    hide DecodeImage;
    SuccessorFacts(j.generation);
    var other := Contents(SlotOf(j.slots, Successor(j.generation)));
    if other.Some? { SuccessorFacts(other.value.1); }
  }

  // Main result, for every legal run from blank flash. Slot A holds only even generations and
  // slot B only odd ones; when both are readable they differ by exactly one, and the comparison
  // picks the later. Once some save has returned true, every load succeeds and yields the ring
  // last saved or loaded, or one whose save was attempted since.
  lemma JournalSurvivesPowerLoss(events: seq<Event>)
    requires LegalRun(BLANK, events)
    ensures var j := Run(BLANK, events);
            var a, b := Contents(j.slots.a), Contents(j.slots.b);
            (a.Some? ==> a.value.1 % 2 == 0) && (b.Some? ==> b.value.1 % 2 == 1) &&
            (a.Some? && b.Some? ==>
               (Successor(a.value.1) == b.value.1) != (Successor(b.value.1) == a.value.1) &&
               (Newer(a.value.1, b.value.1) <==> Successor(b.value.1) == a.value.1)) &&
            Expected(j, LoadOf(j.slots).records) &&
            (j.saved ==> LoadOf(j.slots).ok)
  {
    hide DecodeImage;
    assert Untouched(BLANK);
    RunKeepsConsistent(BLANK, events);
    var j := Run(BLANK, events);
    LoadIsExpected(j);
    ConsistentGenerations(j);
  }

  // The load after an interrupted save yields the ring last saved or loaded, one attempted since,
  // or the one being saved.
  lemma InterruptedSaveLoads(events: seq<Event>, rs: seq<Record>, put: Put)
    requires LegalRun(BLANK, events) && Legal(Run(BLANK, events), SaveInterrupted(rs, put))
    ensures var j := Run(BLANK, events);
            var loaded := LoadOf(SlotsAfterSave(j, rs, put));
            (j.saved ==> loaded.ok) && (Expected(j, loaded.records) || loaded.records == rs)
  {
    hide DecodeImage, Image;
    assert Untouched(BLANK);
    RunKeepsConsistent(BLANK, events);
    var j := Run(BLANK, events);
    StepKeepsConsistent(j, SaveInterrupted(rs, put));
    PutSlot(j, rs, put);
    SuccessorFacts(j.generation);
    var torn := j.(slots := SlotsAfterSave(j, rs, put), attempted := j.attempted + [rs]);
    assert rs in torn.attempted;
    LoadIsExpected(torn);
  }

  // A save never writes the slot of the current generation.
  lemma SaveSparesCurrentSlot(events: seq<Event>, rs: seq<Record>, put: Put)
    requires LegalRun(BLANK, events) && Run(BLANK, events).saved && Storable(rs)
    ensures var j := Run(BLANK, events);
            var slots := SlotsAfterSave(j, rs, put);
            Contents(SlotOf(slots, j.generation)) == Some((j.settled, j.generation))
  {
    hide DecodeImage, Image;
    assert Untouched(BLANK);
    RunKeepsConsistent(BLANK, events);
    PutSlot(Run(BLANK, events), rs, put);
  }

  // Before any save has returned true, the promise fails in exactly one way: the first save was
  // torn and slot B holds bytes that do not decode. Then load reports failure.
  lemma LoadFailsExactlyOnTornFirstSave(events: seq<Event>)
    requires LegalRun(BLANK, events)
    ensures var j := Run(BLANK, events);
            LoadOf(j.slots).ok <==> !(j.slots.a == None && j.slots.b.Some? && Contents(j.slots.b) == None)
  {
    hide DecodeImage;
    assert Untouched(BLANK);
    RunKeepsConsistent(BLANK, events);
    LoadIsExpected(Run(BLANK, events));
  }

  lemma TornFirstSaveIsReachable()
    ensures var torn := SaveInterrupted([], Torn(Some([])));
            LegalRun(BLANK, [torn]) && !LoadOf(Run(BLANK, [torn]).slots).ok
  {
    hide Image;
    var torn := SaveInterrupted([], Torn(Some([])));
    var events := [torn];
    assert events[1..] == [];
    assert DecodeImage([], CAPACITY) == None;
    assert Legal(BLANK, torn);
    var j := Step(BLANK, torn);
    assert LegalRun(j, []) && Run(j, []) == j;
    assert Run(BLANK, events) == Run(j, events[1..]);
  }
}
