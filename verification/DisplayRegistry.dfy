/**
 * The display sink's registry of secrets: what a value is charged, what registering a batch changes,
 * and what every sequence of registrations keeps.
 *
 * How a value is spelled is a parameter: the list of its spellings, the review formatter's forms,
 * and whether it is hazardous to re-encode.
 */
module DisplayRegistry {
  import opened Admission
  import opened EscapeCodec
  import opened FirstSeen
  import opened MachineIntegers
  import opened NeedleIndex
  import opened Ordering
  import opened Registration
  import opened TextCodec
  import opened Wrappers
  import CredentialShapes

  const NEEDLE_OVERHEAD_BYTES := 64
  const INDEXED_WINDOW_BYTES := 32
  const WINDOW_BYTES := 8
  const SPELLING_BYTES_PER_INPUT_BYTE := 48
  const SPELLING_CONSTANT_BYTES := 256
  const MAX_SPELLINGS := 16
  const REDACTION: Bytes := [91, 82, 69, 68, 65, 67, 84, 69, 68, 93]

  datatype Spelling = Spelling(
    spellings: Bytes -> seq<Bytes>,
    review: Bytes -> seq<Bytes>,
    hazardous: Bytes -> bool)

  // ---- Entries ----

  /** One admitted value: the needles looked for, and every eight-byte run of them. */
  datatype Entry = Entry(windows: set<Window>, needles: seq<Bytes>, hazardous: bool)

  /** The eight-byte runs that end within the first `upto` bytes. */
  function WindowsUpTo<T(==)>(bytes: seq<T>, upto: nat): set<seq<T>>
    requires upto <= |bytes|
  {
    if upto < FRAGMENT_SCAN_LENGTH then {}
    else WindowsUpTo(bytes, upto - 1) + {bytes[upto - FRAGMENT_SCAN_LENGTH..upto]}
  }

  function WindowsIn(bytes: Bytes): set<Window> { WindowsUpTo(bytes, |bytes|) }

  lemma {:induction false} RunIsWindow<T>(bytes: seq<T>, upto: nat, at: nat)
    requires at + FRAGMENT_SCAN_LENGTH <= upto <= |bytes|
    ensures bytes[at..at + FRAGMENT_SCAN_LENGTH] in WindowsUpTo(bytes, upto)
    decreases upto
  {
    if at + FRAGMENT_SCAN_LENGTH < upto { RunIsWindow(bytes, upto - 1, at); }
  }

  lemma {:induction false} WindowIsRun<T>(bytes: seq<T>, upto: nat, w: seq<T>) returns (at: nat)
    requires upto <= |bytes| && w in WindowsUpTo(bytes, upto)
    ensures at + FRAGMENT_SCAN_LENGTH <= upto && bytes[at..at + FRAGMENT_SCAN_LENGTH] == w
    decreases upto
  {
    at := upto - FRAGMENT_SCAN_LENGTH;
    if w != bytes[at..upto] { at := WindowIsRun(bytes, upto - 1, w); }
  }

  predicate RunAt(bytes: Bytes, at: nat, w: Window) { at + 8 <= |bytes| && bytes[at..at + 8] == w }

  /** `w` is eight bytes that stand together somewhere in `bytes`. */
  ghost predicate Shows(bytes: Bytes, w: Window) { exists at: nat :: RunAt(bytes, at, w) }

  /** The windows of some bytes are exactly its runs of eight. */
  lemma WindowsAreRuns(bytes: Bytes, w: Window)
    ensures w in WindowsIn(bytes) <==> Shows(bytes, w)
  {
    if w in WindowsIn(bytes) {
      var at := WindowIsRun(bytes, |bytes|, w);
      assert RunAt(bytes, at, w);
    }
    if Shows(bytes, w) {
      var at: nat :| RunAt(bytes, at, w);
      RunIsWindow(bytes, |bytes|, at);
    }
  }

  function WindowsOf(needles: seq<Bytes>, upto: nat): set<Window>
    requires upto <= |needles|
  {
    if upto == 0 then {} else WindowsOf(needles, upto - 1) + WindowsIn(needles[upto - 1])
  }

  predicate LongEnough(spelling: Bytes) { |spelling| >= MIN_SCRUB_LENGTH }

  /** The spellings worth looking for, each once. */
  function NeedlesOf(sp: Spelling, value: Bytes): seq<Bytes> {
    var long := Filter(sp.spellings(value), LongEnough);
    Distinct(long, |long|)
  }

  function NewEntry(sp: Spelling, value: Bytes): Entry {
    var needles := NeedlesOf(sp, value);
    Entry(WindowsOf(needles, |needles|), needles, sp.hazardous(value))
  }

  /** The needles of a value are exactly its spellings of eight bytes or more, each once. */
  lemma NeedlesExactly(sp: Spelling, value: Bytes)
    ensures forall n :: n in NeedlesOf(sp, value) <==> n in sp.spellings(value) && |n| >= 8
    ensures var needles := NeedlesOf(sp, value);
            forall i, j :: 0 <= i < j < |needles| ==> needles[i] != needles[j]
  {
    var spelled := sp.spellings(value);
    var long := Filter(spelled, LongEnough);
    DistinctIsDistinct(long, |long|);
    forall n ensures n in NeedlesOf(sp, value) <==> n in spelled && |n| >= 8 {
      FilterMember(spelled, LongEnough, n);
      assert Seen(long, |long|, n) <==> n in long;
    }
  }

  /** One of the value's spellings holds this run of eight bytes. */
  ghost predicate IsSpelledWith(sp: Spelling, value: Bytes, w: Window) {
    exists n :: n in sp.spellings(value) && Shows(n, w)
  }

  lemma {:induction false} WindowsOfMember(needles: seq<Bytes>, upto: nat, w: Window)
    requires upto <= |needles|
    ensures w in WindowsOf(needles, upto) <==> exists k :: 0 <= k < upto && w in WindowsIn(needles[k])
  {
    if upto > 0 { WindowsOfMember(needles, upto - 1, w); }
  }

  /** An entry's windows are exactly the runs of eight bytes of the value's spellings. */
  lemma EntryExactly(sp: Spelling, value: Bytes, w: Window)
    ensures w in NewEntry(sp, value).windows <==> IsSpelledWith(sp, value, w)
  {
    var needles := NeedlesOf(sp, value);
    NeedlesExactly(sp, value);
    WindowsOfMember(needles, |needles|, w);
    if w in NewEntry(sp, value).windows {
      var k :| 0 <= k < |needles| && w in WindowsIn(needles[k]);
      WindowsAreRuns(needles[k], w);
      assert needles[k] in needles;
    }
    if IsSpelledWith(sp, value, w) {
      var n :| n in sp.spellings(value) && Shows(n, w);
      WindowsAreRuns(n, w);
      assert n in needles;
    }
  }

  // ---- Charges ----

  function SatMul(a: nat, b: nat): nat { if a * b > USIZE_MAX then USIZE_MAX else a * b }

  function NeedleCharge(needles: seq<Bytes>, upto: nat): nat
    requires upto <= |needles|
  {
    if upto == 0 then 0
    else SatAdd(NeedleCharge(needles, upto - 1), SatAdd(|needles[upto - 1]|, NEEDLE_OVERHEAD_BYTES))
  }

  function Cost(entry: Entry, length: nat): nat {
    SatAdd(SatAdd(SatAdd(ENTRY_OVERHEAD_BYTES, length),
                  SatMul(NeedleCharge(entry.needles, |entry.needles|), 2)),
           SatMul(|entry.windows|, SatAdd(WINDOW_BYTES, INDEXED_WINDOW_BYTES)))
  }

  function WorstCaseCost(length: nat): nat {
    var spellingBytes := SatAdd(SatMul(length, SPELLING_BYTES_PER_INPUT_BYTE), SPELLING_CONSTANT_BYTES);
    SatAdd(SatAdd(SatAdd(ENTRY_OVERHEAD_BYTES, length),
                  SatMul(SatAdd(spellingBytes, SatMul(MAX_SPELLINGS, NEEDLE_OVERHEAD_BYTES)), 2)),
           SatMul(spellingBytes, SatAdd(WINDOW_BYTES, INDEXED_WINDOW_BYTES)))
  }

  function SpelledBytes(needles: seq<Bytes>, upto: nat): nat
    requires upto <= |needles|
  {
    if upto == 0 then 0 else SpelledBytes(needles, upto - 1) + |needles[upto - 1]|
  }

  lemma {:induction false} NeedleChargeIs(needles: seq<Bytes>, upto: nat)
    requires upto <= |needles|
    ensures var total := SpelledBytes(needles, upto) + 64 * upto;
            NeedleCharge(needles, upto) == if total > USIZE_MAX then USIZE_MAX else total
  {
    if upto > 0 { NeedleChargeIs(needles, upto - 1); }
  }

  /**
   * An entry is charged 256 bytes, its value, each needle twice at 64 bytes more than it holds, and 40
   * bytes a window, up to the largest count there is.
   */
  lemma CostExactly(sp: Spelling, value: Bytes)
    ensures var needles, windows := NeedlesOf(sp, value), NewEntry(sp, value).windows;
            var total := 256 + |value| + 2 * (SpelledBytes(needles, |needles|) + 64 * |needles|) + 40 * |windows|;
            Cost(NewEntry(sp, value), |value|)
            == if total > 0xFFFF_FFFF_FFFF_FFFF then 0xFFFF_FFFF_FFFF_FFFF else total
  {
    NeedleChargeIs(NeedlesOf(sp, value), |NeedlesOf(sp, value)|);
  }

  /** The worst case of a value is 2017 times its length and 13056 bytes, up to the largest count there is. */
  lemma WorstCaseExactly(length: nat)
    ensures var total := 2017 * length + 13056;
            WorstCaseCost(length) == if total > 0xFFFF_FFFF_FFFF_FFFF then 0xFFFF_FFFF_FFFF_FFFF else total
  {
    var spelled := 48 * length + 256;
    if spelled <= 0xFFFF_FFFF_FFFF_FFFF {
      assert SatAdd(SatMul(length, SPELLING_BYTES_PER_INPUT_BYTE), SPELLING_CONSTANT_BYTES) == spelled;
    }
  }

  lemma UnionIsNoLarger<T>(a: set<T>, b: set<T>)
    ensures |a + b| <= |a| + |b|
  {
    assert a + b == a + (b - a);
    assert |a + (b - a)| == |a| + |b - a|;
    assert |b - a| <= |b| by { assert b == (b - a) + (b * a); }
  }

  lemma {:induction false} WindowsAreFew<T>(bytes: seq<T>, upto: nat)
    requires upto <= |bytes|
    ensures |WindowsUpTo(bytes, upto)| <= upto
  {
    if upto >= FRAGMENT_SCAN_LENGTH {
      WindowsAreFew(bytes, upto - 1);
      UnionIsNoLarger(WindowsUpTo(bytes, upto - 1), {bytes[upto - FRAGMENT_SCAN_LENGTH..upto]});
    }
  }

  /** Every spelled byte starts at most one window, and each needle is charged once. */
  lemma {:induction false} ChargesAreBounded(needles: seq<Bytes>, upto: nat)
    requires upto <= |needles|
    ensures |WindowsOf(needles, upto)| <= SpelledBytes(needles, upto)
    ensures NeedleCharge(needles, upto) <= SpelledBytes(needles, upto) + NEEDLE_OVERHEAD_BYTES * upto
  {
    if upto > 0 {
      ChargesAreBounded(needles, upto - 1);
      WindowsAreFew(needles[upto - 1], |needles[upto - 1]|);
      UnionIsNoLarger(WindowsOf(needles, upto - 1), WindowsIn(needles[upto - 1]));
    }
  }

  /** The bound the worst case is derived from: at most sixteen spellings, at most 48n + 256 bytes of them. */
  predicate SpellsWithinBound(sp: Spelling, value: Bytes) {
    var needles := NeedlesOf(sp, value);
    && |needles| <= MAX_SPELLINGS
    && SpelledBytes(needles, |needles|) <= SPELLING_BYTES_PER_INPUT_BYTE * |value| + SPELLING_CONSTANT_BYTES
  }

  lemma ChargeIsMonotone(length: nat, needles: nat, needles': nat, windows: nat, windows': nat)
    requires needles <= needles' && windows <= windows'
    ensures SatAdd(SatAdd(SatAdd(ENTRY_OVERHEAD_BYTES, length), SatMul(needles, 2)), SatMul(windows, 40))
            <= SatAdd(SatAdd(SatAdd(ENTRY_OVERHEAD_BYTES, length), SatMul(needles', 2)), SatMul(windows', 40))
  {}

  /** An entry that is spelled within the bound is charged no more than its worst case. */
  lemma CostIsWithinWorstCase(sp: Spelling, value: Bytes)
    requires SpellsWithinBound(sp, value)
    ensures Cost(NewEntry(sp, value), |value|) <= WorstCaseCost(|value|)
  {
    var needles := NeedlesOf(sp, value);
    var bytes := SPELLING_BYTES_PER_INPUT_BYTE * |value| + SPELLING_CONSTANT_BYTES;
    ChargesAreBounded(needles, |needles|);
    var charge, windows := NeedleCharge(needles, |needles|), |WindowsOf(needles, |needles|)|;
    var spellingBytes := SatAdd(SatMul(|value|, SPELLING_BYTES_PER_INPUT_BYTE), SPELLING_CONSTANT_BYTES);
    if bytes <= USIZE_MAX {
      assert spellingBytes == bytes;
      ChargeIsMonotone(|value|, charge, bytes + 1024, windows, bytes);
    } else {
      assert spellingBytes == USIZE_MAX;
    }
  }

  // ---- The registry ----

  function CostOf(sp: Spelling): Bytes -> nat {
    (value: Bytes) => Cost(NewEntry(sp, value), |value|)
  }

  predicate Protectable(sp: Spelling, value: Bytes) {
    |value| >= MIN_SCRUB_LENGTH && forall r | r in sp.review(value) :: |r| >= MIN_SCRUB_LENGTH
  }

  function PolicyOf(sp: Spelling): Policy<Bytes> {
    Policy((value: Bytes) => |value| < MIN_SCRUB_LENGTH,
           (value: Bytes) => Protectable(sp, value),
           (value: Bytes) => WorstCaseCost(|value|),
           CostOf(sp))
  }

  function File(index: Index, entry: Entry): Index {
    WithNeedles(index, entry.needles, |entry.needles|)
  }

  /** Every credential-shaped word of a text replaced. */
  function ShapesHidden(text: string): string {
    CredentialShapes.Rendered(CredentialShapes.MARKING, CredentialShapes.Runs(text), 0)
  }

  function ShapesRedacted(bytes: Bytes): Bytes { Utf8Text(ShapesHidden(TextOf(bytes))) }

  /** What the sink makes of a text before any line is withheld: needles, then credential shapes. */
  function Redacted(index: Index, text: Bytes): Bytes {
    ShapesRedacted(ReplacedBy(text, Matcher(index), REDACTION))
  }

  function OpsOf(sp: Spelling): Ops<Bytes, Entry, Index, Window, Bytes> {
    Ops(PolicyOf(sp),
        (value: Bytes) => NewEntry(sp, value),
        File,
        (entry: Entry) => entry.windows,
        (entry: Entry) => entry.hazardous,
        (index: Index, text: Bytes) => WindowsIn(Redacted(index, text)))
  }

  const EMPTY: State<Bytes, Index, Window> := State({}, {}, map[], false, 0, None)

  lemma {:induction false} EmptyIndexChangesNothing<T(!new)>(text: seq<T>, found: seq<T> -> nat, marker: seq<T>)
    requires forall s :: found(s) == 0
    ensures ReplacedBy(text, found, marker) == text
  {
    if text != [] {
      EmptyIndexChangesNothing(text[1..], found, marker);
      assert text == [text[0]] + text[1..];
    }
  }

  /** Replace every needle, then every credential-shaped word. */
  method RedactText(index: Index, text: Bytes) returns (shown: Bytes)
    ensures shown == Redacted(index, text)
  {
    var replaced := text;
    if index == map[] {
      EmptyIndexChangesNothing(text, Matcher(index), REDACTION);
    } else {
      replaced := Redact(index, text, REDACTION);
    }
    var words := CredentialShapes.RedactCredentialShapes(CredentialShapes.MARKING, TextOf(replaced));
    shown := Utf8Text(words);
  }

  // ---- Every registration history ----

  /** Every spelling, of eight bytes or more, of every registered value. */
  function NeedlesHeld(sp: Spelling, known: set<Bytes>): set<Bytes> {
    set v, n | v in known && n in sp.spellings(v) && |n| >= 8 :: n
  }

  ghost function IndexedBy(sp: Spelling): (Index, set<Bytes>) -> bool {
    (index: Index, known: set<Bytes>) => Indexes(index, NeedlesHeld(sp, known))
  }

  lemma NeedlesHeldGrow(sp: Spelling, known: set<Bytes>, value: Bytes)
    ensures NeedlesHeld(sp, known + {value}) == With(NeedlesHeld(sp, known), NeedlesOf(sp, value), |NeedlesOf(sp, value)|)
  {
    var needles := NeedlesOf(sp, value);
    assert needles[..|needles|] == needles;
    NeedlesExactly(sp, value);
    forall n ensures n in NeedlesHeld(sp, known + {value}) <==> n in With(NeedlesHeld(sp, known), needles, |needles|) {
      WithMember(NeedlesHeld(sp, known), needles, |needles|, n);
    }
  }

  lemma FilingIndexes(sp: Spelling, index: Index, known: set<Bytes>, value: Bytes)
    requires Indexes(index, NeedlesHeld(sp, known))
    ensures Indexes(WithNeedles(index, NeedlesOf(sp, value), |NeedlesOf(sp, value)|), NeedlesHeld(sp, known + {value}))
  {
    NeedlesExactly(sp, value);
    AddingIndexes(index, NeedlesHeld(sp, known), NeedlesOf(sp, value));
    NeedlesHeldGrow(sp, known, value);
  }

  lemma FilingIsAdding(sp: Spelling, index: Index, value: Bytes)
    ensures Filing(OpsOf(sp))(index, value) == File(index, NewEntry(sp, value))
  {
    FilingBuilds(OpsOf(sp), index, value);
  }

  lemma FilingAt(sp: Spelling, index: Index, known: set<Bytes>, value: Bytes)
    ensures FilingKeepsAt(Filing(OpsOf(sp)), IndexedBy(sp), index, known, value)
  {
    FilingIsAdding(sp, index, value);
    if IndexedBy(sp)(index, known) { FilingIndexes(sp, index, known, value); }
  }

  lemma FilingIsIndexing(sp: Spelling)
    ensures FilingKeeps(Filing(OpsOf(sp)), IndexedBy(sp))
  {
    forall index, known, value
      ensures FilingKeepsAt(Filing(OpsOf(sp)), IndexedBy(sp), index, known, value)
    {
      FilingAt(sp, index, known, value);
    }
  }

  lemma NoNeedlesHeld(sp: Spelling)
    ensures NeedlesHeld(sp, {}) == {}
  {}

  lemma EmptyIndexes()
    ensures Indexes(map[], {})
  {}

  lemma EmptyKeeps(sp: Spelling)
    ensures Inv(OpsOf(sp), IndexedBy(sp), EMPTY)
  {
    NoNeedlesHeld(sp);
    EmptyIndexes();
    assert IndexedBy(sp)(map[], {});
  }

  function History(sp: Spelling, calls: seq<Call<Bytes, Bytes>>, n: nat): State<Bytes, Index, Window>
    requires n <= |calls|
  {
    StateAfter(OpsOf(sp), EMPTY, calls, n)
  }

  /** Over every run: the books balance within the budget, the index is exact, and every private run is held. */
  lemma BooksBalance(sp: Spelling, calls: seq<Call<Bytes, Bytes>>, n: nat)
    requires n <= |calls|
    ensures var s := History(sp, calls, n);
            && s.used == TotalCost(s.known, CostOf(sp)) <= 134217728
            && Indexes(s.index, NeedlesHeld(sp, s.known))
            && AllHeld(WindowsBy(OpsOf(sp)), s.known, s.privateWindows)
  {
    FilingIsIndexing(sp);
    EmptyKeeps(sp);
    RunKeeps(OpsOf(sp), IndexedBy(sp), EMPTY, calls, n);
  }

  predicate IsAscii(s: string) { forall k :: 0 <= k < |s| ==> s[k] as nat < 0x80 }

  lemma {:induction false} AsciiText(s: string)
    requires IsAscii(s)
    ensures |Utf8Text(s)| == |s| && forall k :: 0 <= k < |s| ==> Utf8Text(s)[k] == s[k] as nat
  {
    if s != "" { AsciiText(s[1..]); }
  }

  /** The marker's bytes are those of the text `[REDACTED]`. */
  lemma RedactionIsText()
    ensures Utf8Text("[REDACTED]") == REDACTION
  {
    AsciiText("[REDACTED]");
  }

  /** What is left of a text when these values are held: no needle, and no credential-shaped word. */
  ghost function Hidden(sp: Spelling, known: set<Bytes>, text: Bytes): Bytes {
    ShapesRedacted(Replaced(text, NeedlesHeld(sp, known), Utf8Text("[REDACTED]")))
  }

  /** Over every run, the scan replaces leftmost-longest over every long spelling of all that was registered. */
  lemma HistoryRedactsLongest(sp: Spelling, calls: seq<Call<Bytes, Bytes>>, n: nat, text: Bytes)
    requires n <= |calls|
    ensures var s := History(sp, calls, n);
            Redacted(s.index, text) == Hidden(sp, s.known, text)
  {
    RedactionIsText();
    BooksBalance(sp, calls, n);
    var s := History(sp, calls, n);
    ScanIsLeftmostLongest(s.index, NeedlesHeld(sp, s.known), text, REDACTION);
  }

  /** The `m`-th call was accepted. */
  ghost predicate Accepts(sp: Spelling, calls: seq<Call<Bytes, Bytes>>, m: nat) {
    m < |calls| && History(sp, calls, m + 1).refusal.None?
  }

  /** Over every run, the values held are exactly those that accepted calls offered. */
  lemma HeldExactly(sp: Spelling, calls: seq<Call<Bytes, Bytes>>, n: nat, v: Bytes)
    requires n <= |calls|
    ensures v in History(sp, calls, n).known <==> exists m: nat :: m < n && Accepts(sp, calls, m) && v in calls[m].batch
  {
    KnownExactly(OpsOf(sp), EMPTY, calls, n, v);
    forall m: nat ensures Offers(OpsOf(sp), EMPTY, calls, m, v) <==> Accepts(sp, calls, m) && v in calls[m].batch {}
  }

  /** Over every run, the hazard flag is set exactly when a value held is hazardous to re-encode. */
  lemma HazardHeldExactly(sp: Spelling, calls: seq<Call<Bytes, Bytes>>, n: nat)
    requires n <= |calls|
    ensures var s := History(sp, calls, n);
            s.hazardous <==> exists v :: v in s.known && sp.hazardous(v)
  {
    HazardExactly(OpsOf(sp), EMPTY, calls, n);
  }

  ghost predicate HoldsShort(batch: seq<Bytes>) { exists i :: 0 <= i < |batch| && |batch[i]| < 8 }

  /** Every form the review formatter gives a value has eight bytes or more. */
  ghost predicate ReviewsLong(sp: Spelling, v: Bytes) { forall r | r in sp.review(v) :: |r| >= 8 }

  /** The budget has room for the `i`-th value, if it is new, and its review forms are long enough. */
  ghost predicate CanHold(sp: Spelling, known: set<Bytes>, available: nat, batch: seq<Bytes>, i: nat)
    requires i < |batch|
  {
    IsNew(known, batch, i) ==> HasRoom(PolicyOf(sp), known, available, batch, i) && ReviewsLong(sp, batch[i])
  }

  ghost predicate AllHold(sp: Spelling, known: set<Bytes>, available: nat, batch: seq<Bytes>) {
    forall i :: 0 <= i < |batch| ==> CanHold(sp, known, available, batch, i)
  }

  /**
   * Every value has eight bytes or more, each new one has room and can be protected in every form, and
   * together they fit what is left of 128 MiB.
   */
  ghost predicate Admits(sp: Spelling, known: set<Bytes>, available: nat, batch: seq<Bytes>) {
    && !HoldsShort(batch) && AllHold(sp, known, available, batch)
    && ChargeBefore(PolicyOf(sp), known, batch, |batch|) <= available
  }

  /** What the policy asks of a value, and what it is charged. */
  lemma PolicyIs(sp: Spelling, v: Bytes)
    ensures PolicyOf(sp).tooShort(v) <==> |v| < 8
    ensures PolicyOf(sp).protectable(v) <==> |v| >= 8 && ReviewsLong(sp, v)
    ensures PolicyOf(sp).worst(v) == WorstCaseCost(|v|)
    ensures PolicyOf(sp).cost(v) == Cost(NewEntry(sp, v), |v|)
  {}

  lemma CanHoldIsCanStage(sp: Spelling, known: set<Bytes>, available: nat, batch: seq<Bytes>, i: nat)
    requires i < |batch| && |batch[i]| >= 8
    ensures CanStage(PolicyOf(sp), known, available, batch, i) <==> CanHold(sp, known, available, batch, i)
  {
    PolicyIs(sp, batch[i]);
  }

  lemma AnyShortIs(sp: Spelling, batch: seq<Bytes>)
    ensures AnyShort(PolicyOf(sp), batch) <==> HoldsShort(batch)
  {
    forall i | 0 <= i < |batch| ensures PolicyOf(sp).tooShort(batch[i]) <==> |batch[i]| < 8 { PolicyIs(sp, batch[i]); }
  }

  lemma AllHoldIs(sp: Spelling, known: set<Bytes>, available: nat, batch: seq<Bytes>)
    requires !HoldsShort(batch)
    ensures AllStage(PolicyOf(sp), known, available, batch) <==> AllHold(sp, known, available, batch)
  {
    forall i | 0 <= i < |batch|
      ensures CanStage(PolicyOf(sp), known, available, batch, i) <==> CanHold(sp, known, available, batch, i)
    {
      CanHoldIsCanStage(sp, known, available, batch, i);
    }
  }

  lemma AdmitsIs(sp: Spelling, known: set<Bytes>, used: nat, available: nat, batch: seq<Bytes>)
    requires used + available == 134217728
    ensures Admitted(PolicyOf(sp), known, used, batch).Ok? <==> Admits(sp, known, available, batch)
    ensures Admitted(PolicyOf(sp), known, used, batch) == Err(ShortSecret) <==> HoldsShort(batch)
  {
    var p, short, hold := PolicyOf(sp), HoldsShort(batch), AllHold(sp, known, available, batch);
    AnyShortIs(sp, batch);
    if !short { AllHoldIs(sp, known, available, batch); }
    AdmittedWhen(p, known, used, available, batch, short, hold);
  }

  /** What is left of 128 MiB. */
  ghost function Left(s: State<Bytes, Index, Window>): nat { if s.used <= 134217728 then 134217728 - s.used else 0 }

  lemma ChargeFits(sp: Spelling, calls: seq<Call<Bytes, Bytes>>, n: nat)
    requires n <= |calls|
    ensures History(sp, calls, n).used + Left(History(sp, calls, n)) == 134217728
  {
    BooksBalance(sp, calls, n);
  }

  lemma HistoryStep(sp: Spelling, calls: seq<Call<Bytes, Bytes>>, m: nat)
    requires m < |calls|
    ensures var s, after := History(sp, calls, m), History(sp, calls, m + 1);
            var admitted := Admitted(PolicyOf(sp), s.known, s.used, calls[m].batch);
            && (after.refusal.None? <==> s.refusal.None? && admitted.Ok?)
            && (s.refusal.None? && admitted.Err? ==> after.refusal == Some(admitted.error))
  {
    RefusedExactly(OpsOf(sp), History(sp, calls, m), calls[m].batch, calls[m].document);
  }

  /**
   * A call is accepted exactly when none was refused before and its batch can be admitted in what is left
   * of 128 MiB; a value under eight bytes is what a refusal names first.
   */
  lemma AcceptsExactly(sp: Spelling, calls: seq<Call<Bytes, Bytes>>, m: nat)
    requires m < |calls|
    ensures var s, batch := History(sp, calls, m), calls[m].batch;
            && (Accepts(sp, calls, m) <==> s.refusal.None? && Admits(sp, s.known, Left(s), batch))
            && (s.refusal.None? && HoldsShort(batch) ==> History(sp, calls, m + 1).refusal == Some(ShortSecret))
  {
    var s := History(sp, calls, m);
    ChargeFits(sp, calls, m);
    HistoryStep(sp, calls, m);
    AdmitsIs(sp, s.known, s.used, Left(s), calls[m].batch);
  }

  /** Over every run, nothing held is dropped, and a refusal is permanent. */
  lemma RefusalIsPermanent(sp: Spelling, calls: seq<Call<Bytes, Bytes>>, m: nat, n: nat)
    requires m <= n <= |calls|
    ensures History(sp, calls, m).known <= History(sp, calls, n).known
    ensures History(sp, calls, m).privateWindows <= History(sp, calls, n).privateWindows
    ensures History(sp, calls, m).refusal.Some? ==> History(sp, calls, n) == History(sp, calls, m)
  {
    FilingIsIndexing(sp);
    EmptyKeeps(sp);
    RunGrows(OpsOf(sp), IndexedBy(sp), EMPTY, calls, m, n);
  }

  /** When values are spelled within the bound, the final check of a batch's charge never refuses. */
  lemma LastCheckNeverRefuses(sp: Spelling, known: set<Bytes>, used: nat, batch: seq<Bytes>)
    requires forall i :: 0 <= i < |batch| ==> SpellsWithinBound(sp, batch[i])
    ensures var available := SatSub(REGISTRATION_BUDGET, used);
            Staged(PolicyOf(sp), known, available, batch, |batch|).Ok? ==>
              Staged(PolicyOf(sp), known, available, batch, |batch|).value.charged <= available
  {
    forall i | 0 <= i < |batch| ensures PolicyOf(sp).cost(batch[i]) <= PolicyOf(sp).worst(batch[i]) {
      CostIsWithinWorstCase(sp, batch[i]);
    }
    StagedFits(PolicyOf(sp), known, SatSub(REGISTRATION_BUDGET, used), batch, |batch|);
  }
}
