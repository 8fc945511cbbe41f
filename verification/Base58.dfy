/**
  The Base58 encoder of the client (client/lib/grits/GritsClient.js, and again in HashVerifier.js) and the
  content identifiers built with it.
*/
module Base58 {
  import opened Wrappers
  import opened Radix

  type byte = n: nat | n < 256

  /** Digits and letters without 0, I, O and l. */
  const ALPHABET := "123456789" + "ABCDEFGH" + "JKLMN" + "PQRSTUVWXYZ" + "abcdefghijk" + "mnopqrstuvwxyz"

  // ---------------------------------------------------------------- letters

  /** The characters the server's address pattern admits after the prefix: [1-9A-HJ-NP-Za-km-z]. */
  predicate IsLetter(c: char) {
    '1' <= c <= '9' || 'A' <= c <= 'H' || 'J' <= c <= 'N' || 'P' <= c <= 'Z' || 'a' <= c <= 'k' || 'm' <= c <= 'z'
  }

  function DigitOf(c: char): nat
    requires IsLetter(c)
  {
    if c <= '9' then c as int - '1' as int
    else if c <= 'H' then 9 + (c as int - 'A' as int)
    else if c <= 'N' then 17 + (c as int - 'J' as int)
    else if c <= 'Z' then 22 + (c as int - 'P' as int)
    else if c <= 'k' then 33 + (c as int - 'a' as int)
    else 44 + (c as int - 'm' as int)
  }

  lemma DigitLetters(d: nat)
    requires d < 17
    ensures d < 9 ==> ALPHABET[d] as int == '1' as int + d
    ensures 9 <= d ==> ALPHABET[d] as int == 'A' as int + (d - 9)
  {
    assert d < 9 ==> ALPHABET[d] == "123456789"[d];
    assert 9 <= d ==> ALPHABET[d] == "ABCDEFGH"[d - 9];
  }

  lemma UpperLetters(d: nat)
    requires 17 <= d < 33
    ensures d < 22 ==> ALPHABET[d] as int == 'J' as int + (d - 17)
    ensures 22 <= d ==> ALPHABET[d] as int == 'P' as int + (d - 22)
  {
    assert d < 22 ==> ALPHABET[d] == "JKLMN"[d - 17];
    assert 22 <= d ==> ALPHABET[d] == "PQRSTUVWXYZ"[d - 22];
  }

  lemma LowerLetters(d: nat)
    requires 33 <= d < 58
    ensures d < 44 ==> ALPHABET[d] as int == 'a' as int + (d - 33)
    ensures 44 <= d ==> ALPHABET[d] as int == 'm' as int + (d - 44)
  {
    assert d < 44 ==> ALPHABET[d] == "abcdefghijk"[d - 33];
    assert 44 <= d ==> ALPHABET[d] == "mnopqrstuvwxyz"[d - 44];
  }

  lemma LetterAt(d: nat)
    requires d < 58
    ensures ALPHABET[d] as int ==
      if d < 9 then '1' as int + d else if d < 17 then 'A' as int + (d - 9)
      else if d < 22 then 'J' as int + (d - 17) else if d < 33 then 'P' as int + (d - 22)
      else if d < 44 then 'a' as int + (d - 33) else 'm' as int + (d - 44)
  {
    if d < 17 { DigitLetters(d); } else if d < 33 { UpperLetters(d); } else { LowerLetters(d); }
  }

  lemma LetterOfDigit(d: nat)
    requires d < 58
    ensures IsLetter(ALPHABET[d]) && DigitOf(ALPHABET[d]) == d
  {
    LetterAt(d);
  }

  lemma DigitOfLetter(c: char)
    requires IsLetter(c)
    ensures DigitOf(c) < 58 && ALPHABET[DigitOf(c)] == c
  {
    LetterAt(DigitOf(c));
  }

  function Text(digits: seq<nat>): (t: string)
    requires AreDigits(digits, 58)
    ensures |t| == |digits|
  {
    seq(|digits|, i requires 0 <= i < |digits| => ALPHABET[digits[i]])
  }

  function DigitsOf(text: string): (s: seq<nat>)
    requires forall i :: 0 <= i < |text| ==> IsLetter(text[i])
    ensures |s| == |text|
  {
    seq(|text|, i requires 0 <= i < |text| => DigitOf(text[i]))
  }

  /** Decoding (section 4 of draft-msporny-base58): the text's digits in base 256, a zero byte per leading '1'. */
  function Decode(text: string): Option<seq<nat>> {
    if forall i :: 0 <= i < |text| ==> IsLetter(text[i])
    then Some(Convert(DigitsOf(text), 58, 256))
    else None
  }

  lemma TextAndDigits(digits: seq<nat>)
    requires AreDigits(digits, 58)
    ensures forall i :: 0 <= i < |digits| ==> IsLetter(Text(digits)[i])
    ensures DigitsOf(Text(digits)) == digits
  {
    forall i | 0 <= i < |digits| ensures IsLetter(Text(digits)[i]) && DigitOf(Text(digits)[i]) == digits[i] {
      LetterOfDigit(digits[i]);
    }
  }

  lemma DigitsAndText(text: string)
    requires forall i :: 0 <= i < |text| ==> IsLetter(text[i])
    ensures AreDigits(DigitsOf(text), 58) && Text(DigitsOf(text)) == text
  {
    forall i | 0 <= i < |text| ensures DigitsOf(text)[i] < 58 && ALPHABET[DigitsOf(text)[i]] == text[i] {
      DigitOfLetter(text[i]);
    }
  }

  /** Only one text decodes to given bytes: encoding undoes decoding as well. */
  lemma DecodeThenEncode(text: string)
    requires Decode(text).Some?
    ensures var bytes := Decode(text).value;
      AreDigits(bytes, 256) && AreDigits(Convert(bytes, 256, 58), 58) && Text(Convert(bytes, 256, 58)) == text
  {
    DigitsAndText(text);
    ConvertBack(DigitsOf(text), 58, 256);
  }

  // ---------------------------------------------------------------- the encoder

  /** The size reserved for n bytes after the leading zeros. */
  function Reserved(n: nat): nat {
    n * 138 / 100 + 1
  }

  lemma EightMoreBytes()
    ensures Pow(256, 8) < Pow(58, 11)
  {
    assert Pow(256, 8) == 0x1_0000_0000_0000_0000;
    PowAdd(58, 4, 7);
    PowAdd(58, 3, 4);
    assert Pow(58, 3) == 195112 && Pow(58, 4) == 11316496;
  }

  lemma MorePowers(m: nat, k: nat, n: nat, r: nat)
    requires Pow(256, m) < Pow(58, k) && Pow(256, n) < Pow(58, r)
    ensures Pow(256, m + n) < Pow(58, k + r)
  {
    PowAdd(256, m, n);
    PowAdd(58, k, r);
    MulLess(Pow(256, m), Pow(58, k), Pow(256, n), Pow(58, r));
  }

  lemma EightMore(n: nat, r: nat)
    requires Pow(256, n) < Pow(58, r)
    ensures Pow(256, 8 + n) < Pow(58, 11 + r)
  {
    EightMoreBytes();
    MorePowers(8, 11, n, r);
  }

  /** The reserved digits hold every value of n bytes, so the last carry of a byte is always zero. */
  lemma {:induction false} ReservedSuffices(n: nat)
    ensures Pow(256, n) < Pow(58, Reserved(n))
  {
    if n < 8 {
      FewBytes(n);
    } else {
      ReservedSuffices(n - 8);
      EightMore(n - 8, Reserved(n - 8));
      PowGrows(58, 11 + Reserved(n - 8), Reserved(n));
    }
  }

  lemma ThreeBytes(n: nat)
    requires n < 4
    ensures Pow(256, n) == [1, 256, 65536, 16777216][n]
    ensures Pow(58, Reserved(n)) == [58, 3364, 195112, 656356768][n]
  {
  }

  lemma SevenBytes(n: nat)
    requires n < 4
    ensures Pow(256, 4 + n) == 4294967296 * [1, 256, 65536, 16777216][n]
    ensures Pow(58, Reserved(4 + n)) == 38068692544 * [1, 58, 195112, 11316496][n]
  {
    ThreeBytes(n);
    PowAdd(256, 4, n);
    assert Reserved(4 + n) == 6 + [0, 1, 3, 4][n];
    PowAdd(58, 6, [0, 1, 3, 4][n]);
  }

  lemma FewBytes(n: nat)
    requires n < 8
    ensures Pow(256, n) < Pow(58, Reserved(n))
  {
    if n < 4 { ThreeBytes(n); } else { SevenBytes(n - 4); }
  }

  lemma MulLess(a: nat, b: nat, c: nat, d: nat)
    requires a < b && c < d
    ensures a * c < b * d
  {
    MulMonotone(a, b, c);
    MulMonotone(c + 1, d, b);
  }

  /** The number that results when the digits s are appended to a number x. */
  function Extend(x: nat, s: seq<nat>): nat {
    if s == [] then x else 58 * Extend(x, s[..|s| - 1]) + s[|s| - 1]
  }

  lemma {:induction false} ExtendFront(x: nat, d: nat, s: seq<nat>)
    ensures Extend(x, [d] + s) == Extend(58 * x + d, s)
  {
    if s == [] {
      assert ([d] + s)[..0] == [];
    } else {
      assert ([d] + s)[..|s|] == [d] + s[..|s| - 1];
      ExtendFront(x, d, s[..|s| - 1]);
    }
  }

  lemma {:induction false} ExtendZero(s: seq<nat>)
    ensures Extend(0, s) == Value(s, 58)
  {
    if s != [] { ExtendZero(s[..|s| - 1]); }
  }

  lemma {:induction false} ExtendOverflows(x: nat, s: seq<nat>)
    requires x > 0
    ensures Extend(x, s) >= Pow(58, |s|)
  {
    if s != [] { ExtendOverflows(x, s[..|s| - 1]); }
  }

  lemma CarryDigit(high: seq<nat>, d: nat, carry: nat, low: seq<nat>)
    ensures var c := carry + 256 * d;
      Extend(256 * Value(high + [d], 58) + carry, low) == Extend(256 * Value(high, 58) + c / 58, [c % 58] + low)
  {
    var c := carry + 256 * d;
    ValueSnoc(high, d, 58);
    ExtendFront(256 * Value(high, 58) + c / 58, c % 58, low);
  }

  /** The carry loop has replaced the digits from m on and has a carry for digit m - 1: what it works on is total. */
  ghost predicate InCarry(was: seq<nat>, now: seq<nat>, carry: nat, m: nat, total: nat) {
    && |was| == |now| && m <= |now| && now[..m] == was[..m] && AreDigits(now, 58)
    && Extend(256 * Value(was[..m], 58) + carry, now[m..]) == total
  }

  lemma CarryStart(was: seq<nat>, newByte: nat)
    requires AreDigits(was, 58)
    ensures InCarry(was, was, newByte, |was|, 256 * Value(was, 58) + newByte)
  {
    assert was[..|was|] == was && was[|was|..] == [];
  }

  lemma CarryStep(was: seq<nat>, now: seq<nat>, carry: nat, k: nat, total: nat)
    requires InCarry(was, now, carry, k + 1, total)
    ensures var c := carry + 256 * now[k]; InCarry(was, now[k := c % 58], c / 58, k, total)
  {
    assert now[..k + 1][k] == was[..k + 1][k];
    var c := carry + 256 * now[k];
    assert was[..k + 1] == was[..k] + [was[k]];
    assert now[k := c % 58][k..] == [c % 58] + now[k + 1..];
    assert now[k := c % 58][..k] == now[..k + 1][..k] == was[..k + 1][..k] == was[..k];
    CarryDigit(was[..k], was[k], carry, now[k + 1..]);
  }

  /** The inner loop: the digits, as one number, become 256 times themselves plus the byte. */
  method AddByte(b58: array<nat>, length: nat, newByte: byte) returns (newLength: nat)
    requires AreDigits(b58[..], 58) && length <= b58.Length
    requires forall i :: 0 <= i < b58.Length - length ==> b58[i] == 0
    requires 256 * Value(b58[..], 58) + newByte < Pow(58, b58.Length)
    modifies b58
    ensures AreDigits(b58[..], 58) && newLength <= b58.Length
    ensures forall i :: 0 <= i < b58.Length - newLength ==> b58[i] == 0
    ensures Value(b58[..], 58) == 256 * Value(old(b58[..]), 58) + newByte
  {
    ghost var was, now, total := b58[..], b58[..], 256 * Value(b58[..], 58) + newByte;
    var carry, j, k := newByte as nat, 0, b58.Length - 1;
    CarryStart(was, newByte);
    while k >= 0
      invariant 0 <= j <= b58.Length && k == b58.Length - 1 - j && carry < 256 && now == b58[..]
      invariant InCarry(was, now, carry, k + 1, total)
    {
      if carry == 0 && j >= length {
        break;
      }
      CarryStep(was, now, carry, k, total);
      carry := carry + 256 * b58[k];
      b58[k] := carry % 58;
      carry := carry / 58;
      now := now[k := b58[k]];
      k, j := k - 1, j + 1;
    }
    newLength := j;
    CarryDone(was, now, carry, k + 1, total);
  }

  lemma CarryDone(was: seq<nat>, now: seq<nat>, carry: nat, m: nat, total: nat)
    requires InCarry(was, now, carry, m, total) && total < Pow(58, |now|)
    requires m == 0 || (carry == 0 && forall i :: 0 <= i < m ==> was[i] == 0)
    ensures Value(now, 58) == total
    ensures forall i :: 0 <= i < m ==> now[i] == 0
  {
    assert forall i :: 0 <= i < m ==> now[i] == now[..m][i];
    ValueOfZeros(was[..m], 58);
    if carry > 0 {
      ExtendOverflows(carry, now[m..]);
    }
    ExtendZero(now[m..]);
    ValueSkipsZeros(now, m, 58);
  }

  lemma FitsReserved(buffer: seq<byte>, zeros: nat, i: nat)
    requires zeros <= i < |buffer|
    ensures 256 * Value(buffer[zeros..i], 256) + buffer[i] == Value(buffer[zeros..i + 1], 256)
    ensures Value(buffer[zeros..i + 1], 256) < Pow(58, Reserved(|buffer| - zeros))
  {
    assert buffer[zeros..i + 1] == buffer[zeros..i] + [buffer[i]];
    ValueSnoc(buffer[zeros..i], buffer[i], 256);
    ValueBelow(buffer[zeros..i + 1], 256);
    PowGrows(256, i + 1 - zeros, |buffer| - zeros);
    ReservedSuffices(|buffer| - zeros);
  }

  /** The outer loop: the bytes after the leading zeros become digits, right-aligned in the array. */
  method FillDigits(buffer: seq<byte>, zeros: nat) returns (b58: array<nat>, length: nat)
    requires zeros <= |buffer|
    ensures fresh(b58) && length <= b58.Length && AreDigits(b58[..], 58)
    ensures forall i :: 0 <= i < b58.Length - length ==> b58[i] == 0
    ensures Value(b58[..], 58) == Value(buffer[zeros..], 256)
  {
    b58 := new nat[Reserved(|buffer| - zeros)](_ => 0);
    length := 0;
    var i := zeros;
    ValueOfZeros(b58[..], 58);
    while i < |buffer|
      invariant zeros <= i <= |buffer| && fresh(b58) && b58.Length == Reserved(|buffer| - zeros)
      invariant length <= b58.Length && AreDigits(b58[..], 58)
      invariant forall k :: 0 <= k < b58.Length - length ==> b58[k] == 0
      invariant Value(b58[..], 58) == Value(buffer[zeros..i], 256)
    {
      FitsReserved(buffer, zeros, i);
      length := AddByte(b58, length, buffer[i]);
      i := i + 1;
    }
    assert buffer[zeros..i] == buffer[zeros..];
  }

  lemma DigitsAreExact(buffer: seq<byte>, zeros: nat, digits: seq<nat>, start: nat)
    requires zeros == LeadingZeros(buffer) && AreDigits(digits, 58) && start <= |digits|
    requires Value(digits, 58) == Value(buffer[zeros..], 256)
    requires (forall i :: 0 <= i < start ==> digits[i] == 0) && (start < |digits| ==> digits[start] != 0)
    ensures Convert(buffer, 256, 58) == Zeros(zeros) + digits[start..]
  {
    ValueSkipsZeros(buffer, zeros, 256);
    ValueSkipsZeros(digits, start, 58);
    NumeralIsUnique(digits[start..], 58);
  }

  /** The encoder: exactly the buffer's number in base 58, with a '1' for every leading zero byte. */
  method Encode(buffer: seq<byte>) returns (str: string)
    ensures AreDigits(Convert(buffer, 256, 58), 58) && str == Text(Convert(buffer, 256, 58))
    ensures Decode(str) == Some(buffer)
  {
    var zeros := 0;
    while zeros < |buffer| && buffer[zeros] == 0
      invariant zeros <= LeadingZeros(buffer)
    {
      zeros := zeros + 1;
    }
    var b58, length := FillDigits(buffer, zeros);
    var i := SkipZeros(b58, length);
    str := Spell(zeros, b58, i);
    EncodedMeaning(buffer, zeros, b58[..], i);
  }

  lemma EncodedMeaning(buffer: seq<byte>, zeros: nat, digits: seq<nat>, start: nat)
    requires zeros == LeadingZeros(buffer) && AreDigits(digits, 58) && start <= |digits|
    requires Value(digits, 58) == Value(buffer[zeros..], 256)
    requires (forall i :: 0 <= i < start ==> digits[i] == 0) && (start < |digits| ==> digits[start] != 0)
    ensures Zeros(zeros) + digits[start..] == Convert(buffer, 256, 58) && AreDigits(Convert(buffer, 256, 58), 58)
    ensures Decode(Text(Convert(buffer, 256, 58))) == Some(buffer)
  {
    DigitsAreExact(buffer, zeros, digits, start);
    ConvertBack(buffer, 256, 58);
    TextAndDigits(Convert(buffer, 256, 58));
  }

  method SkipZeros(b58: array<nat>, length: nat) returns (i: nat)
    requires length <= b58.Length && forall k :: 0 <= k < b58.Length - length ==> b58[k] == 0
    ensures i <= b58.Length && (i < b58.Length ==> b58[i] != 0)
    ensures forall k :: 0 <= k < i ==> b58[k] == 0
  {
    i := b58.Length - length;
    while i < b58.Length && b58[i] == 0
      invariant b58.Length - length <= i <= b58.Length
      invariant forall k :: 0 <= k < i ==> b58[k] == 0
    {
      i := i + 1;
    }
  }

  method Spell(zeros: nat, b58: array<nat>, start: nat) returns (str: string)
    requires start <= b58.Length && AreDigits(b58[..], 58)
    ensures str == Text(Zeros(zeros) + b58[start..])
  {
    ghost var digits := Zeros(zeros) + b58[start..];
    str := seq(zeros, _ => '1');
    var i := start;
    while i < b58.Length
      invariant start <= i <= b58.Length && |str| == zeros + i - start
      invariant forall k :: 0 <= k < |str| ==> str[k] == ALPHABET[digits[k]]
    {
      assert digits[|str|] == b58[i];
      str := str + [ALPHABET[b58[i]]];
      i := i + 1;
    }
  }

  // ---------------------------------------------------------------- content identifiers

  const SHA256_PREFIX: seq<byte> := [0x12, 0x20]

  /** The server's pattern for blob addresses (internal/gritsd/validation.go): "Qm" and 44 Base58 characters. */
  predicate IsBlobAddress(s: string) {
    |s| == 46 && s[..2] == "Qm" && forall i :: 2 <= i < 46 ==> IsLetter(s[i])
  }

  lemma CidPowers()
    ensures Pow(256, 32) == 115792089237316195423570985008687907853269984665640564039457584007913129639936
    ensures Pow(58, 44) == 389790918707373377135528568990913592653094657612049369038476873218241589149696
  {
    assert Pow(256, 4) == 0x1_0000_0000;
    PowAdd(256, 4, 4);
    PowAdd(256, 8, 8);
    PowAdd(256, 16, 16);
    assert Pow(58, 4) == 11316496 && Pow(58, 3) == 195112;
    PowAdd(58, 4, 4);
    PowAdd(58, 8, 3);
    PowAdd(58, 11, 11);
    PowAdd(58, 22, 22);
  }

  /** The number of a multihash lies between "Qm" followed by 44 lowest and by 44 highest digits. */
  lemma MultihashRange(digest: seq<byte>)
    requires |digest| == 32
    ensures var v := Value(SHA256_PREFIX + digest, 256);
      1378 * Pow(58, 44) <= v < 1379 * Pow(58, 44)
  {
    ValueConcat(SHA256_PREFIX, digest, 256);
    assert Value(SHA256_PREFIX, 256) == 4640 by {
      assert SHA256_PREFIX[..1] == [0x12] && SHA256_PREFIX[..1][..0] == [];
    }
    ValueBelow(digest, 256);
    CidPowers();
  }

  lemma RangeLength(length: nat, v: nat, n: nat)
    requires length > 0 && Pow(58, length - 1) <= v < Pow(58, length)
    requires 1378 * Pow(58, n) <= v < 1379 * Pow(58, n)
    ensures length == n + 2
  {
    PowGrows(58, 0, n);
    assert Pow(58, n + 2) == 58 * Pow(58, n + 1) && Pow(58, n + 1) == 58 * Pow(58, n);
    if length < n + 2 { PowGrows(58, length, n + 1); }
    if length > n + 2 { PowGrows(58, n + 2, length - 1); }
  }

  lemma TwoDigits(s: seq<nat>)
    requires |s| == 2
    ensures Value(s, 58) == 58 * s[0] + s[1]
  {
    assert s == [] + [s[0]] + [s[1]];
    ValueSnoc([], s[0], 58);
    ValueSnoc([] + [s[0]], s[1], 58);
  }

  /** A numeral in that range has n + 2 digits, and they start with those of 'Q' and 'm'. */
  lemma RangeDigits(s: seq<nat>, n: nat)
    requires AreDigits(s, 58) && s != [] && s[0] != 0
    requires 1378 * Pow(58, n) <= Value(s, 58) < 1379 * Pow(58, n)
    ensures |s| == n + 2 && s[0] == 23 && s[1] == 44
  {
    ValueBelow(s, 58);
    ValueAtLeast(s, 58);
    RangeLength(|s|, Value(s, 58), n);
    assert s == s[..2] + s[2..];
    ValueConcat(s[..2], s[2..], 58);
    ValueBelow(s[2..], 58);
    TopDigits(Value(s[..2], 58), Value(s[2..], 58), Pow(58, n));
    TwoDigits(s[..2]);
  }

  lemma TopDigits(top: nat, low: nat, p: nat)
    requires low < p && 1378 * p <= top * p + low < 1379 * p
    ensures top == 1378
  {
    if top < 1378 { MulMonotone(top + 1, 1378, p); }
    if top > 1378 { MulMonotone(1379, top, p); }
  }

  lemma RangeNumeral(v: nat, n: nat)
    requires 1378 * Pow(58, n) <= v < 1379 * Pow(58, n)
    ensures var s := Numeral(v, 58); AreDigits(s, 58) && |s| == n + 2 && s[0] == 23 && s[1] == 44
  {
    PowGrows(58, 0, n);
    NumeralMeaning(v, 58);
    RangeDigits(Numeral(v, 58), n);
  }

  lemma CidText(digest: seq<byte>)
    requires |digest| == 32
    ensures var digits := Convert(SHA256_PREFIX + digest, 256, 58); AreDigits(digits, 58) && IsBlobAddress(Text(digits))
  {
    var digits := Convert(SHA256_PREFIX + digest, 256, 58);
    MultihashRange(digest);
    RangeNumeral(Value(SHA256_PREFIX + digest, 256), 44);
    assert digits == Numeral(Value(SHA256_PREFIX + digest, 256), 58);
    TextAndDigits(digits);
    LetterAt(23);
    LetterAt(44);
    assert Text(digits)[..2] == "Qm";
  }

  /** Every content identifier has the form that the server accepts, and gives its digest back. */
  method ComputeCid(digest: seq<byte>) returns (cid: string)
    requires |digest| == 32
    ensures IsBlobAddress(cid) && |cid| == 46 && cid[0] == 'Q' && cid[1] == 'm'
    ensures Decode(cid) == Some(SHA256_PREFIX + digest)
  {
    var multihash := SHA256_PREFIX + digest;
    cid := Encode(multihash);
    CidText(digest);
  }

  /** The client accepts content exactly for the identifier that decodes to the content's digest. */
  method Verify(digest: seq<byte>, expected: string) returns (ok: bool)
    requires |digest| == 32
    ensures ok <==> Decode(expected) == Some(SHA256_PREFIX + digest)
  {
    var actual := ComputeCid(digest);
    ok := actual == expected;
    if Decode(expected) == Some(SHA256_PREFIX + digest) {
      DecodeThenEncode(expected);
      DecodeThenEncode(actual);
    }
  }
}
