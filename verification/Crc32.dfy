/** The bit-serial CRC-32, proved equal to the table-driven CRC of section 8 of
    RFC 1952 and proved to detect every error burst of up to four bytes. */
module Crc32 {
  import opened Folds

  const POLYNOMIAL: bv32 := 0xEDB88320
  const START: bv32 := 0xFFFF_FFFF

  /** A byte, widened to the register in which the loop consumes it. */
  type ByteWord = b: bv32 | b < 0x100

  predicate Odd(c: bv32) { c & 1 == 1 }

  /** One step of the shift register. */
  function Shift(c: bv32): bv32 {
    if Odd(c) then (c >> 1) ^ POLYNOMIAL else c >> 1
  }

  function Xor(a: bv32, b: bv32): bv32 { a ^ b }

  /** A byte is mixed into the register, which then takes eight steps. */
  function FeedStep(c: bv32, b: bv32): bv32 { Iterate(Shift, Xor(c, b), 8) }

  // ---- The reference: section 8 of RFC 1952 ---------------------------------------

  /** `k` rounds of the computation of a table entry. */
  function RfcRounds(c: bv32, k: nat): bv32
    decreases k
  {
    if k == 0 then c
    else if c & 1 == 1 then RfcRounds(0xEDB88320 ^ (c >> 1), k - 1)
    else RfcRounds(c >> 1, k - 1)
  }

  /** Entry `n` of the CRC table. */
  function RfcEntry(n: bv32): bv32 { RfcRounds(n, 8) }

  function RfcUpdate(table: bv32 -> bv32, c: bv32, bytes: seq<ByteWord>): bv32
    decreases bytes
  {
    if bytes == [] then c else RfcUpdate(table, table(RfcIndex(c, bytes[0])) ^ (c >> 8), bytes[1..])
  }

  function RfcIndex(c: bv32, b: bv32): bv32 { (c ^ b) & 0xFF }

  /** The CRC of a byte string. */
  function RfcCrc(bytes: seq<ByteWord>): bv32 { RfcUpdate(RfcEntry, 0xFFFF_FFFF, bytes) ^ 0xFFFF_FFFF }

  /** The step looks the register up in the table as the update does. */
  predicate LooksUp(step: (bv32, bv32) -> bv32, table: bv32 -> bv32, c: bv32, b: bv32) {
    step(c, b) == table(RfcIndex(c, b)) ^ (c >> 8)
  }

  lemma {:induction false} UpdateIsFold(step: (bv32, bv32) -> bv32, table: bv32 -> bv32, c: bv32, bytes: seq<ByteWord>)
    requires forall x, i :: 0 <= i < |bytes| ==> LooksUp(step, table, x, bytes[i])
    ensures RfcUpdate(table, c, bytes) == Fold<bv32, bv32>(step, c, bytes)
    decreases bytes
  {
    if bytes != [] {
      assert LooksUp(step, table, c, bytes[0]);
      UpdateIsFold(step, table, step(c, bytes[0]), bytes[1..]);
    }
  }

  /** A round of the reference is a step of the register. */
  lemma {:induction false} RoundsAreShifts(c: bv32, k: nat)
    ensures RfcRounds(c, k) == Iterate(Shift, c, k)
    decreases k
  {
    if k > 0 {
      RoundIsShift(c, k);
      RoundsAreShifts(Shift(c), k - 1);
      IterateAdds(Shift, c, 1, k - 1);
    }
  }

  lemma RoundIsShift(c: bv32, k: nat)
    requires k > 0
    ensures RfcRounds(c, k) == RfcRounds(Shift(c), k - 1)
  {
    XorCommutes(c >> 1, 0xEDB88320);
  }

  // ---- The shift register is linear and loses nothing -----------------------------------

  lemma XorShift(x: bv32, y: bv32)
    ensures (x ^ y) >> 1 == (x >> 1) ^ (y >> 1)
  {}

  lemma XorOdd(x: bv32, y: bv32)
    ensures Odd(x ^ y) == (Odd(x) != Odd(y))
  {}

  lemma XorMoves(x: bv32, y: bv32, p: bv32)
    ensures (x ^ p) ^ (y ^ p) == x ^ y
    ensures (x ^ p) ^ y == (x ^ y) ^ p
    ensures x ^ (y ^ p) == (x ^ y) ^ p
  {}

  lemma ShiftXor(x: bv32, y: bv32)
    ensures Shift(x ^ y) == Shift(x) ^ Shift(y)
  {
    XorOdd(x, y);
    if Odd(x) && Odd(y) {
      XorShift(x, y);
      XorMoves(x >> 1, y >> 1, POLYNOMIAL);
    } else if Odd(x) {
      XorShift(x, y);
      XorMoves(x >> 1, y >> 1, POLYNOMIAL);
    } else if Odd(y) {
      XorShift(x, y);
      XorMoves(x >> 1, y >> 1, POLYNOMIAL);
    } else {
      XorShift(x, y);
    }
  }

  lemma ShiftIsLinear()
    ensures Linear(Shift, Xor)
  {
    forall x, y ensures Shift(Xor(x, y)) == Xor(Shift(x), Shift(y)) {
      ShiftXor(x, y);
    }
  }

  /** The polynomial's top bit tells which way a step went. */
  lemma ShiftIsInjective()
    ensures Injective(Shift)
  {
    forall x, y | Shift(x) == Shift(y) ensures x == y {
      ShiftReversible(x, y);
    }
  }

  lemma ShiftReversible(x: bv32, y: bv32)
    requires Shift(x) == Shift(y)
    ensures x == y
  {}

  function Half(c: bv32): bv32 { c >> 1 }

  lemma HalfEightTimes(x: bv32)
    requires x & 0xFF == 0
    ensures forall k :: 0 <= k < 8 ==> !Odd(Iterate(Half, x, k))
    ensures Iterate(Half, x, 8) == x >> 8
  {
    assert Iterate(Half, x, 0) == x;
    assert Iterate(Half, x, 1) == x >> 1;
    assert Iterate(Half, x, 2) == x >> 2;
    assert Iterate(Half, x, 3) == x >> 3;
    assert Iterate(Half, x, 4) == x >> 4;
    assert Iterate(Half, x, 5) == x >> 5;
    assert Iterate(Half, x, 6) == x >> 6;
    assert Iterate(Half, x, 7) == x >> 7;
  }

  /** Eight steps move a register whose low byte is zero down by one byte. */
  lemma ShiftWholeByte(x: bv32)
    requires x & 0xFF == 0
    ensures Iterate(Shift, x, 8) == x >> 8
  {
    HalfEightTimes(x);
    forall k | 0 <= k < 8 ensures Shift(Iterate(Half, x, k)) == Half(Iterate(Half, x, k)) {
      ShiftEven(Iterate(Half, x, k));
    }
    IterateSame(Shift, Half, x, 8);
  }

  lemma ShiftEven(c: bv32)
    requires !Odd(c)
    ensures Shift(c) == Half(c)
  {}

  lemma SplitLowByte(c: bv32, b: ByteWord)
    ensures Xor(c, b) == Xor(RfcIndex(c, b), HighBytes(c))
    ensures HighBytes(c) & 0xFF == 0 && HighBytes(c) >> 8 == c >> 8
  {}

  function HighBytes(c: bv32): bv32 { c & 0xFFFF_FF00 }

  predicate MovesByte(f: bv32 -> bv32, x: bv32) { x & 0xFF == 0 ==> Iterate(f, x, 8) == x >> 8 }

  ghost predicate MovesWholeBytes(f: bv32 -> bv32) {
    forall x: bv32 :: MovesByte(f, x)
  }

  lemma ShiftMovesWholeBytes()
    ensures MovesWholeBytes(Shift)
  {
    forall x: bv32 ensures MovesByte(Shift, x) {
      if x & 0xFF == 0 {
        ShiftWholeByte(x);
      }
    }
  }

  /** The high bytes move down and the low byte's contribution is added. */
  lemma PartsMove(f: bv32 -> bv32, low: bv32, high: bv32, shifted: bv32)
    requires Linear(f, Xor) && MovesWholeBytes(f) && high & 0xFF == 0 && high >> 8 == shifted
    ensures Iterate(f, Xor(low, high), 8) == Xor(Iterate(f, low, 8), shifted)
  {
    IterateLinear(f, Xor, low, high, 8);
    assert MovesByte(f, high);
  }

  lemma ByteStepSplits(f: bv32 -> bv32, c: bv32, b: ByteWord)
    requires Linear(f, Xor) && MovesWholeBytes(f)
    ensures Iterate(f, Xor(c, b), 8) == Xor(Iterate(f, RfcIndex(c, b), 8), c >> 8)
  {
    SplitLowByte(c, b);
    PartsMove(f, RfcIndex(c, b), HighBytes(c), c >> 8);
  }

  predicate EntryOf(f: bv32 -> bv32, table: bv32 -> bv32, n: bv32) { table(n) == Iterate(f, n, 8) }

  /** A step that mixes a byte in and moves on by eight is one table lookup. */
  lemma FeedIsLookup(step: (bv32, bv32) -> bv32, f: bv32 -> bv32, table: bv32 -> bv32, c: bv32, b: ByteWord)
    requires Linear(f, Xor) && MovesWholeBytes(f) && EntryOf(f, table, RfcIndex(c, b))
    requires FeedsAt(step, f, Xor, c, b)
    ensures LooksUp(step, table, c, b)
  {
    ByteStepSplits(f, c, b);
  }

  lemma FoldIsUpdate(step: (bv32, bv32) -> bv32, f: bv32 -> bv32, table: bv32 -> bv32, c: bv32, bytes: seq<ByteWord>)
    requires Linear(f, Xor) && MovesWholeBytes(f) && Feeds(step, f, Xor) && forall n :: EntryOf(f, table, n)
    ensures Fold<bv32, bv32>(step, c, bytes) == RfcUpdate(table, c, bytes)
  {
    forall x, i | 0 <= i < |bytes| ensures LooksUp(step, table, x, bytes[i]) {
      StepLooksUp(step, f, table, x, bytes[i]);
    }
    UpdateIsFold(step, table, c, bytes);
  }

  lemma StepLooksUp(step: (bv32, bv32) -> bv32, f: bv32 -> bv32, table: bv32 -> bv32, c: bv32, b: ByteWord)
    requires Linear(f, Xor) && MovesWholeBytes(f) && Feeds(step, f, Xor) && forall n :: EntryOf(f, table, n)
    ensures LooksUp(step, table, c, b)
  {
    assert FeedsAt(step, f, Xor, c, b) && EntryOf(f, table, RfcIndex(c, b));
    FeedIsLookup(step, f, table, c, b);
  }

  lemma EntriesAreShifts()
    ensures forall n :: EntryOf(Shift, RfcEntry, n)
  {
    forall n ensures EntryOf(Shift, RfcEntry, n) {
      RoundsAreShifts(n, 8);
    }
  }

  /** Feeding bytes bit by bit is the table-driven update. */
  lemma FeedIsUpdate(c: bv32, bytes: seq<ByteWord>)
    ensures Fold<bv32, bv32>(FeedStep, c, bytes) == RfcUpdate(RfcEntry, c, bytes)
  {
    ShiftIsLinear();
    ShiftMovesWholeBytes();
    EntriesAreShifts();
    FeedStepFeeds();
    FoldIsUpdate(FeedStep, Shift, RfcEntry, c, bytes);
  }

  // ---- The loops ---------------------------------------------------------------------------

  /** One bit of the loop. */
  function BitStep(crc: bv32, ch: bv32): bv32 {
    if Odd(ch ^ crc) then (crc >> 1) ^ POLYNOMIAL else crc >> 1
  }

  /** Register and remaining byte, combined, take one step of `f`. */
  predicate StepLike(f: bv32 -> bv32, crc: bv32, ch: bv32) { Xor(BitStep(crc, ch), ch >> 1) == f(Xor(crc, ch)) }

  ghost predicate StepsLike(f: bv32 -> bv32) {
    forall crc: bv32, ch: bv32 :: StepLike(f, crc, ch)
  }

  lemma BitStepShifts(crc: bv32, ch: bv32)
    ensures BitStep(crc, ch) ^ (ch >> 1) == Shift(crc ^ ch)
  {
    XorCommutes(ch, crc);
    XorShift(crc, ch);
    if Odd(ch ^ crc) {
      XorMoves(crc >> 1, ch >> 1, POLYNOMIAL);
    }
  }

  lemma XorCommutes(a: bv32, b: bv32)
    ensures a ^ b == b ^ a
  {}

  lemma LoopStepsLikeShift()
    ensures StepsLike(Shift)
  {
    forall crc: bv32, ch: bv32 ensures StepLike(Shift, crc, ch) {
      BitStepShifts(crc, ch);
    }
  }

  lemma ByteRunsOut(b: ByteWord)
    ensures Iterate(Half, b, 8) == 0
  {
    assert Iterate(Half, b, 0) == b;
    assert Iterate(Half, b, 1) == b >> 1;
    assert Iterate(Half, b, 2) == b >> 2;
    assert Iterate(Half, b, 3) == b >> 3;
    assert Iterate(Half, b, 4) == b >> 4;
    assert Iterate(Half, b, 5) == b >> 5;
    assert Iterate(Half, b, 6) == b >> 6;
    assert Iterate(Half, b, 7) == b >> 7;
  }

  lemma XorZero(c: bv32)
    ensures c ^ 0 == c
  {}

  method FeedBit(crc: bv32, ch: bv32, ghost f: bv32 -> bv32) returns (r: bv32)
    requires StepsLike(f)
    ensures Xor(r, ch >> 1) == f(Xor(crc, ch))
  {
    var carry := (ch ^ crc) & 1;
    r := crc >> 1;
    if carry != 0 {
      r := r ^ POLYNOMIAL;
    }
    assert r == BitStep(crc, ch) && StepLike(f, crc, ch);
  }

  method FeedByte(crc: bv32, b: ByteWord, ghost f: bv32 -> bv32) returns (r: bv32)
    requires StepsLike(f)
    ensures r == Iterate(f, Xor(crc, b), 8)
  {
    r := crc;
    var ch: bv32 := b;
    for bit := 0 to 8
      invariant Xor(r, ch) == Iterate(f, Xor(crc, b), bit)
      invariant ch == Iterate(Half, b, bit)
    {
      r := FeedBit(r, ch, f);
      ch := ch >> 1;
    }
    ByteRunsOut(b);
    XorZero(r);
  }

  method FeedBytes(bytes: seq<ByteWord>) returns (crc: bv32)
    ensures crc == Fold<bv32, bv32>(FeedStep, START, bytes)
  {
    ghost var feed: (bv32, bv32) -> bv32 := FeedStep;
    LoopStepsLikeShift();
    crc := START;
    for i := 0 to |bytes|
      invariant Fold<bv32, bv32>(feed, crc, bytes[i..]) == Fold<bv32, bv32>(feed, START, bytes)
    {
      assert bytes[i..][1..] == bytes[i + 1..];
      assert feed(crc, bytes[i]) == FeedStep(crc, bytes[i]);
      crc := FeedByte(crc, bytes[i], Shift);
    }
  }

  method ComputeCrc32(bytes: seq<ByteWord>) returns (r: bv32)
    ensures r == RfcCrc(bytes)
  {
    var crc := FeedBytes(bytes);
    CrcIsComplement(bytes);
    r := !crc;
  }

  /** The reference CRC is the complement of the register after feeding. */
  lemma CrcIsComplement(bytes: seq<ByteWord>)
    ensures RfcCrc(bytes) == !Fold<bv32, bv32>(FeedStep, START, bytes)
  {
    FeedIsUpdate(START, bytes);
    Complement(RfcUpdate(RfcEntry, START, bytes));
  }

  lemma Complement(c: bv32)
    ensures !c == c ^ 0xFFFF_FFFF
  {}

  // ---- Error bursts --------------------------------------------------------------------------

  lemma XorCancels(c: bv32, x: bv32, y: bv32)
    ensures c ^ x == c ^ y ==> x == y
    ensures x ^ c == y ^ c ==> x == y
  {}

  /** Different registers stay different whatever bytes follow. */
  lemma FeedStepInjective(b: bv32)
    ensures InjectiveIn(FeedStep, b)
  {
    ShiftIsInjective();
    forall x, y | FeedStep(x, b) == FeedStep(y, b) ensures x == y {
      IterateInjective(Shift, Xor(x, b), Xor(y, b), 8);
      XorCancels(b, x, y);
    }
  }

  lemma FeedIsInjective(s: seq<bv32>)
    ensures AllInjective<bv32, bv32>(FeedStep, s)
  {
    forall i | 0 <= i < |s| ensures InjectiveIn<bv32, bv32>(FeedStep, s[i]) {
      FeedStepInjective(s[i]);
    }
  }

  function Up(x: bv32): bv32 { x << 8 }

  /** Up to four bytes as one word, the first byte lowest. */
  function Word(w: seq<bv32>): bv32 {
    if w == [] then 0 else Xor(w[0], Up(Word(w[1..])))
  }

  lemma WordOfThreeFits(w: seq<ByteWord>)
    requires |w| <= 3
    ensures Word(w) < 0x100_0000
  {
    if |w| > 0 {
      WordOfTwoFits(w[1..]);
      WordGrows(w[0], Word(w[1..]));
    }
  }

  lemma WordOfTwoFits(w: seq<ByteWord>)
    requires |w| <= 2
    ensures Word(w) < 0x1_0000
  {
    if |w| > 0 {
      assert |w[1..]| == 0 || w[1..][1..] == [];
      assert Word([]) == 0;
      if |w| > 1 {
        var x: bv32 := w[1];
        assert Word(w[1..]) == x ^ (Word([]) << 8);
        WordOfOne(x);
      }
      WordGrows(w[0], Word(w[1..]));
    }
  }

  lemma WordOfOne(x: bv32)
    ensures x ^ ((0 as bv32) << 8) == x
  {}

  lemma WordGrows(b: ByteWord, x: bv32)
    ensures x < 0x100 ==> b ^ (x << 8) < 0x1_0000
    ensures x < 0x1_0000 ==> b ^ (x << 8) < 0x100_0000
  {}

  lemma WordParts(b: ByteWord, x: bv32, d: ByteWord, y: bv32)
    requires x < 0x100_0000 && y < 0x100_0000
    ensures b ^ (x << 8) == d ^ (y << 8) ==> b == d && x == y
  {}

  lemma {:induction false} WordInjective(v: seq<ByteWord>, w: seq<ByteWord>)
    requires |v| == |w| <= 4
    ensures Word(v) == Word(w) ==> v == w
    decreases v
  {
    if v != [] && Word(v) == Word(w) {
      FirstByteDecides(v, w);
      WordInjective(v[1..], w[1..]);
      assert v == [v[0]] + v[1..] && w == [w[0]] + w[1..];
    }
  }

  lemma FirstByteDecides(v: seq<ByteWord>, w: seq<ByteWord>)
    requires 0 < |v| <= 4 && 0 < |w| <= 4 && Word(v) == Word(w)
    ensures v[0] == w[0] && Word(v[1..]) == Word(w[1..])
  {
    WordOfThreeFits(v[1..]);
    WordOfThreeFits(w[1..]);
    WordParts(v[0], Word(v[1..]), w[0], Word(w[1..]));
  }

  lemma UpMovesDown(x: bv32)
    requires x < 0x100_0000
    ensures Iterate(Shift, Up(x), 8) == x
  {
    ShiftedUp(x);
    ShiftWholeByte(Up(x));
  }

  lemma ShiftedUp(x: bv32)
    requires x < 0x100_0000
    ensures Up(x) & 0xFF == 0 && Up(x) >> 8 == x
  {}

  lemma BytesMakeWords(w: seq<ByteWord>)
    requires |w| <= 4
    ensures WordsOf(Shift, Xor, Up, Word, w)
  {
    forall k | 0 <= k < |w| ensures IsWordOf(Shift, Xor, Up, Word, w[k..]) {
      var rest: seq<ByteWord> := w[k..][1..];
      WordOfThreeFits(rest);
      UpMovesDown(Word(rest));
    }
  }

  lemma XorIsGroup()
    ensures Associative(Xor) && Cancels(Xor) && Neutral(Xor, Word([]))
  {
    forall x, y, z ensures Regroups(Xor, x, y, z) {
      XorRegroups(x, y, z);
    }
    forall x, y, z ensures CancelsAt(Xor, x, y, z) {
      XorCancels(x, y, z);
    }
  }

  lemma XorRegroups(x: bv32, y: bv32, z: bv32)
    ensures Xor(Xor(x, y), z) == Xor(x, Xor(y, z))
  {}

  lemma FeedStepFeeds()
    ensures Feeds(FeedStep, Shift, Xor)
  {}

  lemma BurstChangesCrc(p: seq<ByteWord>, v: seq<ByteWord>, w: seq<ByteWord>, s: seq<ByteWord>)
    requires v != w && |v| == |w| <= 4
    ensures Fold<bv32, bv32>(FeedStep, START, p + v + s) != Fold<bv32, bv32>(FeedStep, START, p + w + s)
  {
    ShiftIsLinear();
    ShiftIsInjective();
    XorIsGroup();
    FeedStepFeeds();
    BytesMakeWords(v);
    BytesMakeWords(w);
    WordInjective(v, w);
    FeedIsInjective(s);
    WordsChangeFold<bv32>(Shift, Xor, Up, Word, FeedStep, START, p, v, w, s);
  }

  lemma InThree<T>(s: seq<T>, i: nat, j: nat)
    requires i <= j <= |s|
    ensures s == s[..i] + s[i..j] + s[j..]
  {}

  /** Two strings of one length that differ only within four consecutive bytes
      have different CRCs. */
  lemma BurstsAreDetected(a: seq<ByteWord>, b: seq<ByteWord>, i: nat)
    requires |a| == |b| && a != b
    requires forall k :: 0 <= k < |a| && !(i <= k < i + 4) ==> a[k] == b[k]
    ensures RfcCrc(a) != RfcCrc(b)
  {
    var start, end := if i < |a| then i else |a|, if i + 4 < |a| then i + 4 else |a|;
    var p, v, w, s := a[..start], a[start..end], b[start..end], a[end..];
    assert b[..start] == p && b[end..] == s;
    InThree(a, start, end);
    InThree(b, start, end);
    BurstChangesCrc(p, v, w, s);
    CrcIsComplement(a);
    CrcIsComplement(b);
  }

  /** The register passes from one value to the next on a byte. */
  predicate Passes(c: bv32, b: bv32, next: bv32) { RfcEntry(RfcIndex(c, b)) ^ (c >> 8) == next }

  lemma CheckRegisters()
    ensures Passes(0xFFFFFFFF, 0x31, 0x7C231048)
    ensures Passes(0x7C231048, 0x32, 0xB0ACBB32)
    ensures Passes(0xB0ACBB32, 0x33, 0x77B79C2D)
    ensures Passes(0x77B79C2D, 0x34, 0x641C1F5C)
    ensures Passes(0x641C1F5C, 0x35, 0x340AC5E3)
    ensures Passes(0x340AC5E3, 0x36, 0xF68D2C9E)
    ensures Passes(0xF68D2C9E, 0x37, 0xAFFC9660)
    ensures Passes(0xAFFC9660, 0x38, 0x651F2550)
    ensures Passes(0x651F2550, 0x39, 0x340BC6D9)
  {
    assert RfcEntry(0xCE) == 0x7CDCEFB7;
    assert RfcEntry(0x7A) == 0xB0D09822;
    assert RfcEntry(0x01) == 0x77073096;
    assert RfcEntry(0x19) == 0x646BA8C0;
    assert RfcEntry(0x69) == 0x346ED9FC;
    assert RfcEntry(0xD5) == 0xF6B9265B;
    assert RfcEntry(0xA9) == 0xAF0A1B4C;
    assert RfcEntry(0x58) == 0x65B0D9C6;
    assert RfcEntry(0x69) == 0x346ED9FC;
  }

  /** The check value of CRC-32: that of the digits 1 to 9. */
  lemma CheckValue(bytes: seq<ByteWord>)
    requires bytes == [0x31, 0x32, 0x33, 0x34, 0x35, 0x36, 0x37, 0x38, 0x39]
    ensures RfcCrc(bytes) == 0xCBF43926
  {
    var rs: seq<bv32> := [0xFFFF_FFFF, 0x7C231048, 0xB0ACBB32, 0x77B79C2D, 0x641C1F5C, 0x340AC5E3,
                          0xF68D2C9E, 0xAFFC9660, 0x651F2550, 0x340BC6D9];
    CheckRegisters();
    RegistersLead(bytes, rs, 0);
    assert bytes[0..] == bytes;
  }

  lemma {:induction false} RegistersLead(bytes: seq<ByteWord>, rs: seq<bv32>, k: nat)
    requires k <= |bytes| && |rs| == |bytes| + 1
    requires forall i :: k <= i < |bytes| ==> Passes(rs[i], bytes[i], rs[i + 1])
    ensures RfcUpdate(RfcEntry, rs[k], bytes[k..]) == rs[|bytes|]
    decreases |bytes| - k
  {
    if k < |bytes| {
      assert Passes(rs[k], bytes[k], rs[k + 1]);
      assert bytes[k..][1..] == bytes[k + 1..];
      RegistersLead(bytes, rs, k + 1);
    }
  }
}
