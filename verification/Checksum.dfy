/** The two Internet checksums of the repository: one folds carries as it goes, the other only at the end. */
module Checksum {
  import opened Arithmetic

  type Byte = b: nat | b < 256

  const ONES: nat := 0xFFFF

  /** The 16-bit word at an index, as a little-endian machine reads it. */
  function Word(bytes: seq<Byte>, k: nat): (w: nat)
    requires 2 * k + 1 < |bytes|
    ensures w <= ONES
  {
    bytes[2 * k] as nat + 256 * bytes[2 * k + 1] as nat
  }

  /** The plain sum of the first words. */
  function WordSum(bytes: seq<Byte>, words: nat): (sum: nat)
    requires 2 * words <= |bytes|
    ensures sum <= words * ONES
  {
    if words == 0 then 0 else WordSum(bytes, words - 1) + Word(bytes, words - 1)
  }

  /** The 16-bit one's complement value of a plain sum: zero only for zero. */
  function Ones(sum: nat): (value: nat)
    ensures value <= ONES
  {
    if sum == 0 then 0 else 1 + (sum - 1) % ONES
  }

  /** Adds the high half of a 32-bit sum to its low half. */
  function Fold(sum: nat): nat { sum / 0x1_0000 + sum % 0x1_0000 }

  /** The plain sum of a message whose odd last byte counts with the given weight. */
  function MessageSum(bytes: seq<Byte>, weight: nat): nat {
    WordSum(bytes, |bytes| / 2) + (if |bytes| % 2 == 1 then bytes[|bytes| - 1] as nat * weight else 0)
  }

  /** `icmp_checksum` takes an odd last byte as the high byte of a word ... */
  function IcmpValue(bytes: seq<Byte>): nat { ONES - Ones(MessageSum(bytes, 256)) }

  /** ... and `cksum` as the low byte, on top of an initial sum. */
  function CksumFrom(bytes: seq<Byte>, initial: nat): nat { ONES - Ones((initial + MessageSum(bytes, 1)) % U32) }

  function CksumValue(bytes: seq<Byte>): nat { CksumFrom(bytes, 0) }

  // ----- one's complement arithmetic -----

  /** Two sums have the same one's complement value when they differ by a multiple of 2^16 - 1 and are both
      zero or both positive. */
  lemma OnesUnique(sum: nat, q: nat, r: nat)
    requires sum == q * ONES + r && r <= ONES && (r == 0 ==> q == 0)
    ensures Ones(sum) == r
  {
    if r > 0 {
      ModUnique(sum - 1, q, r - 1, ONES);
    }
  }

  lemma OnesSplit(sum: nat) returns (q: nat)
    ensures sum == q * ONES + Ones(sum) && (Ones(sum) == 0 ==> q == 0)
  {
    q := if sum == 0 then 0 else (sum - 1) / ONES;
  }

  /** Adding a word to a folded sum and folding again is the same as folding once at the end. */
  lemma OnesAdd(sum: nat, word: nat)
    requires word <= ONES
    ensures Ones(sum + word) == if Ones(sum) + word > ONES then Ones(sum) + word - ONES else Ones(sum) + word
  {
    var q := OnesSplit(sum);
    var r := Ones(sum) + word;
    if r > ONES {
      OnesUnique(sum + word, q + 1, r - ONES);
    } else {
      OnesUnique(sum + word, q, r);
    }
  }

  /** A fold keeps the one's complement value. */
  lemma FoldKeepsOnes(sum: nat)
    ensures Ones(Fold(sum)) == Ones(sum)
  {
    var q := OnesSplit(Fold(sum));
    assert sum == sum / 0x1_0000 * ONES + Fold(sum);
    OnesUnique(sum, q + sum / 0x1_0000, Ones(Fold(sum)));
  }

  /** Two folds bring any 32-bit sum down to its one's complement value. */
  lemma TwoFoldsSuffice(sum: nat)
    requires sum < U32
    ensures Fold(Fold(sum)) == Ones(sum)
  {
    FoldKeepsOnes(sum);
    FoldKeepsOnes(Fold(sum));
    OnesUnique(Fold(Fold(sum)), 0, Fold(Fold(sum)));
  }

  // ----- the two computations -----

  lemma NothingSummed(bytes: seq<Byte>)
    ensures WordSum(bytes, 0) == 0 == Ones(0)
  {
  }

  lemma WordSumNext(bytes: seq<Byte>, k: nat)
    requires 2 * k + 1 < |bytes|
    ensures WordSum(bytes, k + 1) == WordSum(bytes, k) + (bytes[2 * k] as nat + 256 * bytes[2 * k + 1] as nat)
  {
  }

  /** One eager step: adds a word to the folded sum and folds when there is a carry. */
  method AddFolded(checksum: nat, word: nat, ghost sum: nat) returns (next: nat)
    requires checksum == Ones(sum) && word <= ONES
    ensures next == Ones(sum + word)
  {
    OnesAdd(sum, word);
    next := checksum + word;
    if next / 0x1_0000 > 0 {
      next := next / 0x1_0000 + next % 0x1_0000;
    }
  }

  /** The loop of `icmp_checksum`, which folds after every carry. */
  method FoldedSum(icmp: array<Byte>, length: nat) returns (checksum: nat)
    requires length <= icmp.Length
    ensures checksum == Ones(MessageSum(icmp[..length], 256))
  {
    hide WordSum, Ones, Word;
    ghost var bytes := icmp[..length];
    var p: nat, len: nat := 0, length;
    checksum := 0;
    NothingSummed(bytes);
    while len > 1
      invariant 2 * p + len == length
      invariant checksum == Ones(WordSum(bytes, p))
    {
      WordSumNext(bytes, p);
      checksum := AddFolded(checksum, icmp[2 * p] as nat + 256 * icmp[2 * p + 1] as nat, WordSum(bytes, p));
      p, len := p + 1, len - 2;
    }
    if len > 0 {
      checksum := AddFolded(checksum, icmp[2 * p] as nat * 256, WordSum(bytes, p));
    }
  }

  /** `icmp_checksum`: clears the checksum field, sums, and stores the complement. */
  method IcmpChecksum(icmp: array<Byte>, length: nat)
    requires 4 <= icmp.Length && length <= icmp.Length && length < 0x1_0000
    modifies icmp
    ensures icmp[..] == Stored(old(icmp[..]), IcmpValue(Cleared(old(icmp[..]))[..length]))
    ensures forall i :: 0 <= i < icmp.Length && i != 2 && i != 3 ==> icmp[i] == old(icmp[i])
    // In network byte order the field holds the Internet checksum of the message with the field cleared.
    ensures var message := old(icmp[..])[2 := 0][3 := 0][..length];
      length % 2 == 0 || message[length - 1] == 0 ==>
      256 * icmp[2] as nat + icmp[3] as nat == ONES - Ones(NetworkSum(message, length))
  {
    ghost var message := Cleared(icmp[..])[..length];
    InternetChecksum(message);
    assert IcmpValue(message) <= ONES;
    hide MessageSum, Ones, NetworkSum;
    icmp[2], icmp[3] := 0, 0;
    assert icmp[..length] == Cleared(old(icmp[..]))[..length];
    var checksum := FoldedSum(icmp, length);
    checksum := checksum / 0x1_0000 + checksum % 0x1_0000;
    checksum := checksum / 0x1_0000 + checksum % 0x1_0000;
    var complement := ONES - checksum;
    icmp[2], icmp[3] := complement % 256, complement / 256;
  }

  function Cleared(bytes: seq<Byte>): seq<Byte>
    requires 4 <= |bytes|
  {
    bytes[2 := 0][3 := 0]
  }

  /** A message with a value in its checksum field. */
  function Stored(bytes: seq<Byte>, value: nat): seq<Byte>
    requires 4 <= |bytes| && value <= ONES
  {
    bytes[2 := value % 256][3 := value / 256]
  }

  /** The 32-bit sum of the first words, on top of a start value. */
  ghost predicate Summed(buf: array<Byte>, start: nat, p: nat, sum: nat)
    reads buf
  {
    2 * p <= buf.Length && sum == (start + WordSum(buf[..], p)) % U32
  }

  /** One `cksum += *pWd++`. */
  method AddNext(buf: array<Byte>, p: nat, sum: nat, ghost start: nat) returns (next: nat, p': nat)
    requires 2 * p + 1 < buf.Length && Summed(buf, start, p, sum)
    ensures p' == p + 1 && Summed(buf, start, p', next)
  {
    WordSumNext(buf[..], p);
    next, p' := (sum + (buf[2 * p] as nat + 256 * buf[2 * p + 1] as nat)) % U32, p + 1;
  }

  /** The unrolled body of the first loop. */
  method AddSixteen(buf: array<Byte>, p: nat, sum: nat, ghost start: nat) returns (next: nat, p': nat)
    requires 2 * p + 31 < buf.Length && Summed(buf, start, p, sum)
    ensures p' == p + 16 && Summed(buf, start, p', next)
  {
    hide Summed;
    next, p' := AddNext(buf, p, sum, start); next, p' := AddNext(buf, p', next, start);
    next, p' := AddNext(buf, p', next, start); next, p' := AddNext(buf, p', next, start);
    next, p' := AddNext(buf, p', next, start); next, p' := AddNext(buf, p', next, start);
    next, p' := AddNext(buf, p', next, start); next, p' := AddNext(buf, p', next, start);
    next, p' := AddNext(buf, p', next, start); next, p' := AddNext(buf, p', next, start);
    next, p' := AddNext(buf, p', next, start); next, p' := AddNext(buf, p', next, start);
    next, p' := AddNext(buf, p', next, start); next, p' := AddNext(buf, p', next, start);
    next, p' := AddNext(buf, p', next, start); next, p' := AddNext(buf, p', next, start);
  }

  /** `cksumUpdate`, its loops: sixteen words at a time, then the rest. */
  method CksumWords(buf: array<Byte>, start: nat) returns (sum: nat)
    requires start < U32
    ensures Summed(buf, start, buf.Length / 2, sum)
  {
    var size := buf.Length;
    NothingSummed(buf[..]);
    assert size / 2 == 16 * (size / 32) + size % 32 / 2;
    var p: nat := 0;
    sum := start;
    assert Summed(buf, start, p, sum);
    hide Summed;
    var nWords: nat := size / 32;
    while nWords > 0
      invariant p + 16 * nWords == 16 * (size / 32) && Summed(buf, start, p, sum)
    {
      sum, p := AddSixteen(buf, p, sum, start);
      nWords := nWords - 1;
    }
    nWords := size % 32 / 2;
    while nWords > 0
      invariant p + nWords == size / 2 && Summed(buf, start, p, sum)
    {
      sum, p := AddNext(buf, p, sum, start);
      nWords := nWords - 1;
    }
  }

  /** `cksumUpdate`: after the words comes an odd last byte, as the low half of a word. */
  method CksumUpdate(buf: array<Byte>, start: nat) returns (sum: nat)
    requires start < U32
    ensures sum == (start + MessageSum(buf[..], 1)) % U32
  {
    hide WordSum;
    sum := CksumWords(buf, start);
    if buf.Length % 2 == 1 {
      sum := (sum + buf[buf.Length - 1]) % U32;
    }
  }

  /** `cksumDone`. */
  method CksumDone(sum: nat) returns (result: nat)
    requires sum < U32
    ensures result == ONES - Ones(sum)
  {
    TwoFoldsSuffice(sum);
    var folded := sum % 0x1_0000 + sum / 0x1_0000;
    folded := folded % 0x1_0000 + folded / 0x1_0000;
    result := ONES - folded;
  }

  /** `cksum`. */
  method Cksum(buf: array<Byte>, initial: nat) returns (result: nat)
    requires initial < U32
    ensures result == CksumFrom(buf[..], initial)
  {
    var sum := CksumUpdate(buf, initial);
    result := CksumDone(sum);
  }

  // ----- agreement -----

  /** A message of at most 65535 bytes does not overflow the 32-bit sum. */
  lemma NoOverflow(bytes: seq<Byte>)
    requires |bytes| < 0x1_0000
    ensures MessageSum(bytes, 1) < U32
  {
  }

  /** Two plain sums that differ by 255 times a byte have the same value only if the byte is zero. */
  lemma OnesApart(sum: nat, b: Byte)
    ensures Ones(sum + b as nat * 256) == Ones(sum + b) <==> b == 0
  {
    var q1 := OnesSplit(sum + b as nat * 256);
    var q2 := OnesSplit(sum + b);
    hide Ones;
  }

  /** The two checksums of a message agree exactly when its length is even or its last byte is zero. */
  lemma ChecksumsAgree(bytes: seq<Byte>)
    requires |bytes| < 0x1_0000
    ensures IcmpValue(bytes) == CksumValue(bytes) <==> |bytes| % 2 == 0 || bytes[|bytes| - 1] == 0
  {
    CksumPlain(bytes);
    var words := WordSum(bytes, |bytes| / 2);
    hide Ones, WordSum, CksumValue;
    if |bytes| % 2 == 1 {
      OnesApart(words, bytes[|bytes| - 1]);
    }
  }

  lemma CksumPlain(bytes: seq<Byte>)
    requires |bytes| < 0x1_0000
    ensures CksumValue(bytes) == ONES - Ones(MessageSum(bytes, 1))
  {
    NoOverflow(bytes);
    hide Ones, MessageSum;
  }

  // ----- messages in parts -----

  lemma {:induction false} WordsOfBoth(a: seq<Byte>, b: seq<Byte>, words: nat)
    requires |a| % 2 == 0 && |a| / 2 <= words && 2 * words <= |a| + |b|
    ensures WordSum(a + b, words) == WordSum(a, |a| / 2) + WordSum(b, words - |a| / 2)
    decreases words
  {
    if words > |a| / 2 {
      WordsOfBoth(a, b, words - 1);
      assert Word(a + b, words - 1) == Word(b, words - 1 - |a| / 2);
    } else {
      WordsOfPrefix(a, b, words);
    }
  }

  lemma {:induction false} WordsOfPrefix(a: seq<Byte>, b: seq<Byte>, words: nat)
    requires 2 * words <= |a|
    ensures WordSum(a + b, words) == WordSum(a, words)
  {
    if words > 0 {
      WordsOfPrefix(a, b, words - 1);
    }
  }

  /** The checksum of a message may be computed in parts: that of the second part, on top of the sum of a first part of
      even length, is that of the whole. */
  lemma CksumInParts(a: seq<Byte>, b: seq<Byte>)
    requires |a| % 2 == 0 && |a| + |b| < 0x1_0000
    ensures CksumFrom(b, MessageSum(a, 1)) == CksumValue(a + b)
  {
    WordsOfBoth(a, b, |a + b| / 2);
    hide WordSum, Ones;
    assert MessageSum(a + b, 1) == MessageSum(a, 1) + MessageSum(b, 1);
  }

  // ----- the Internet checksum -----

  /** The plain sum of a message as section 1 of RFC 1071 has it: bytes are paired with the first one high, and an odd
      last one is paired with zero. */
  function NetworkSum(bytes: seq<Byte>, n: nat): nat
    requires n <= |bytes|
  {
    if n == 0 then 0
    else if n % 2 == 1 then NetworkSum(bytes, n - 1) + 256 * bytes[n - 1] as nat
    else NetworkSum(bytes, n - 2) + 256 * bytes[n - 2] as nat + bytes[n - 1] as nat
  }

  /** A 16-bit word with its bytes exchanged. */
  function Swapped(word: nat): (swapped: nat)
    requires word <= ONES
    ensures swapped <= ONES
  {
    word % 256 * 256 + word / 256
  }

  /** The sum of the second bytes of all pairs. */
  function SecondBytes(bytes: seq<Byte>, words: nat): nat
    requires 2 * words <= |bytes|
  {
    if words == 0 then 0 else SecondBytes(bytes, words - 1) + bytes[2 * words - 1] as nat
  }

  lemma {:induction false} OrdersApart(bytes: seq<Byte>, words: nat)
    requires 2 * words <= |bytes|
    ensures 256 * WordSum(bytes, words) == NetworkSum(bytes, 2 * words) + ONES * SecondBytes(bytes, words)
  {
    if words > 0 {
      OrdersApart(bytes, words - 1);
    }
  }

  lemma SwapIsShift(r: nat)
    requires r <= ONES
    ensures 256 * r == ONES * (r / 256) + Swapped(r)
    ensures r > 0 ==> Swapped(r) > 0
    ensures Swapped(ONES - r) == ONES - Swapped(r)
  {
    var hi, lo := r / 256, r % 256;
    assert r == 256 * hi + lo && hi < 256;
    assert ONES - r == 256 * (255 - hi) + (255 - lo);
    ModUnique(ONES - r, 255 - hi, 255 - lo, 256);
  }

  /** The value in one byte order is that in the other with its bytes exchanged. */
  lemma OrdersAgree(little: nat, big: nat, high: nat)
    requires 256 * little == big + ONES * high && (little == 0 <==> big == 0)
    ensures Ones(big) == Swapped(Ones(little))
  {
    var r := Ones(little);
    var q := OnesSplit(little);
    SwapIsShift(r);
    var c := 256 * q - high + r / 256;
    assert big == c * ONES + Swapped(r);
    if little == 0 {
      OnesUnique(0, 0, 0);
    } else {
      assert c >= 0;
      OnesUnique(big, c, Swapped(r));
    }
  }

  lemma {:induction false} NoneSummed(bytes: seq<Byte>, words: nat)
    requires 2 * words <= |bytes|
    ensures WordSum(bytes, words) == 0 <==> NetworkSum(bytes, 2 * words) == 0
  {
    if words > 0 {
      NoneSummed(bytes, words - 1);
    }
  }

  lemma CksumAgreesWithNetwork(bytes: seq<Byte>)
    ensures Ones(NetworkSum(bytes, |bytes|)) == Swapped(Ones(MessageSum(bytes, 1)))
  {
    var words := |bytes| / 2;
    OrdersApart(bytes, words);
    NoneSummed(bytes, words);
    OrdersAgree(MessageSum(bytes, 1), NetworkSum(bytes, |bytes|), SecondBytes(bytes, words));
  }

  /** On a little-endian machine `cksum` leaves the Internet checksum in memory, in network byte order, for every
      message; `icmp_checksum` does so exactly when the length is even or the last byte is zero. */
  lemma InternetChecksum(bytes: seq<Byte>)
    requires |bytes| < 0x1_0000
    ensures Swapped(CksumValue(bytes)) == ONES - Ones(NetworkSum(bytes, |bytes|))
    ensures Swapped(IcmpValue(bytes)) == ONES - Ones(NetworkSum(bytes, |bytes|)) <==>
            |bytes| % 2 == 0 || bytes[|bytes| - 1] == 0
  {
    CksumIsInternet(bytes);
    ChecksumsAgree(bytes);
    hide NetworkSum, Ones, IcmpValue, CksumValue, Swapped;
    SwapTwice(CksumValue(bytes));
    SwapTwice(IcmpValue(bytes));
  }

  lemma CksumIsInternet(bytes: seq<Byte>)
    requires |bytes| < 0x1_0000
    ensures CksumValue(bytes) <= ONES && IcmpValue(bytes) <= ONES
    ensures Swapped(CksumValue(bytes)) == ONES - Ones(NetworkSum(bytes, |bytes|))
  {
    CksumPlain(bytes);
    CksumAgreesWithNetwork(bytes);
    var sum := MessageSum(bytes, 1);
    hide NetworkSum, MessageSum, Ones, Swapped;
    SwapIsShift(Ones(sum));
  }

  lemma SwapTwice(word: nat)
    requires word <= ONES
    ensures Swapped(Swapped(word)) == word
  {
    ModUnique(Swapped(word), word % 256, word / 256, 256);
  }

  // ----- verification at the receiver -----

  /** Filling the cleared checksum field adds its value to the sum of the words. */
  lemma {:induction false} StoredSum(bytes: seq<Byte>, value: nat, words: nat)
    requires 4 <= |bytes| && value <= ONES && 2 * words <= |bytes|
    ensures WordSum(Stored(bytes, value), words) ==
            WordSum(Cleared(bytes), words) + (if words >= 2 then value else 0)
  {
    if words > 0 {
      StoredSum(bytes, value, words - 1);
      assert words != 2 ==> Word(Stored(bytes, value), words - 1) == Word(Cleared(bytes), words - 1);
    }
  }

  /** Adding the complement of a sum's value to the sum gives all ones. */
  lemma ComplementFills(sum: nat)
    ensures Ones(sum + (ONES - Ones(sum))) == ONES
  {
    var q := OnesSplit(sum);
    if Ones(sum) == 0 {
      assert sum == 0;
    }
    OnesUnique(sum + (ONES - Ones(sum)), q, ONES);
  }

  /** A message that carries its `icmp_checksum` checks out by the same sum: the value is zero. */
  lemma IcmpStoredVerifies(bytes: seq<Byte>)
    requires 4 <= |bytes| < 0x1_0000
    ensures IcmpValue(Stored(bytes, IcmpValue(Cleared(bytes)))) == 0
  {
    var clear, value := Cleared(bytes), IcmpValue(Cleared(bytes));
    StoredSum(bytes, value, |bytes| / 2);
    assert MessageSum(Stored(bytes, value), 256) == MessageSum(clear, 256) + value;
    ComplementFills(MessageSum(clear, 256));
  }

  /** It checks out by `cksum` exactly when its length is even or its last byte is zero. */
  lemma IcmpStoredVerifiesByCksum(bytes: seq<Byte>)
    requires 4 <= |bytes| < 0x1_0000
    ensures CksumValue(Stored(bytes, IcmpValue(Cleared(bytes)))) == 0
            <==> |bytes| % 2 == 0 || bytes[|bytes| - 1] == 0
  {
    var stored := Stored(bytes, IcmpValue(Cleared(bytes)));
    IcmpStoredVerifies(bytes);
    ChecksumsAgree(stored);
    assert |bytes| % 2 == 1 ==> stored[|bytes| - 1] == bytes[|bytes| - 1];
  }
}
