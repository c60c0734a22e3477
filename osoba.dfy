/** The sample record of the application: a person (Osoba) with a first name
    (meno), a surname (priezvisko), a birth date kept as its milliseconds, and
    a UUID string that serves as its key. Java strings are sequences of UTF-16
    code units, written here as integers below 2^16. */
module OsobaRecord {

  import opened Wrappers
  import opened Bytes
  import opened Records

  type Char16 = c: int | 0 <= c < 0x1_0000
  type JString = seq<Char16>

  const MaxMenoLength: nat := 15
  const MaxPriezviskoLength: nat := 14
  const UuidLength: nat := 10

  const IntBytes: nat := 4
  const CharBytes: nat := 2
  const LongBytes: nat := 8

  datatype Osoba = Osoba(meno: JString, priezvisko: JString, datumNarodenia: Int64, uuid: JString)

  /** The no-argument constructor: empty strings and the epoch. */
  function Blank(): (b: Osoba)
    ensures WellFormed(b)
  {
    Osoba([], [], 0, [])
  }

  function Min(a: int, b: int): int { if a < b then a else b }

  /** getSize: three length prefixes, the three fixed-width strings and the
      date, the same for every instance. */
  function GetSize(): (r: nat)
    ensures r == 98
  {
    IntBytes * 3 + CharBytes * (MaxMenoLength + MaxPriezviskoLength + UuidLength) + LongBytes
  }

  /** isEqual compares the UUIDs only. */
  predicate IsEqual(a: Osoba, b: Osoba)
  {
    a.uuid == b.uuid
  }

  lemma IsEqualIsKeyEquality(a: Osoba, b: Osoba, c: Osoba, meno: JString, priezvisko: JString, datum: Int64)
    ensures IsEqual(a, a)
    ensures IsEqual(a, b) == IsEqual(b, a)
    ensures IsEqual(a, b) && IsEqual(b, c) ==> IsEqual(a, c)
    ensures IsEqual(a, Osoba(meno, priezvisko, datum, a.uuid))
    ensures IsEqual(a, b) <==> Key(a) == Key(b)
  {
  }

  /** createCopy: a new person with the same four fields. */
  function CreateCopy(o: Osoba): (c: Osoba)
    ensures c == o && IsEqual(c, o)
  {
    Osoba(o.meno, o.priezvisko, o.datumNarodenia, o.uuid)
  }

  // ----- fixed-width strings -----

  /** n NUL characters. */
  function Nuls(n: nat): (r: JString)
    ensures |r| == n && forall i :: 0 <= i < n ==> r[i] == 0
  {
    seq(n, _ => 0)
  }

  /** The maxLen characters writeFixedString emits: the value's first
      characters, then NUL characters. */
  function Padded(value: JString, maxLen: nat): (r: JString)
    ensures |r| == maxLen
  {
    seq(maxLen, i requires 0 <= i < maxLen => if i < |value| then value[i] else 0)
  }

  /** writeChar for each character: two bytes, high byte first. */
  function CharsToBytes(cs: JString): (r: seq<Byte>)
    ensures |r| == 2 * |cs|
  {
    seq(2 * |cs|, j requires 0 <= j < 2 * |cs| => if j % 2 == 0 then cs[j / 2] / 256 else cs[j / 2] % 256)
  }

  /** readChar for each of n pairs of bytes. */
  function BytesToChars(bs: seq<Byte>, n: nat): (r: JString)
    requires |bs| == 2 * n
    ensures |r| == n
  {
    seq(n, i requires 0 <= i < n => (bs[2 * i] as int) * 256 + bs[2 * i + 1])
  }

  lemma CharsRoundTrip(cs: JString)
    ensures BytesToChars(CharsToBytes(cs), |cs|) == cs
  {
    var bs := CharsToBytes(cs);
    forall i | 0 <= i < |cs|
      ensures BytesToChars(bs, |cs|)[i] == cs[i]
    {
      var j := 2 * i;
      assert j / 2 == i && j % 2 == 0 && (j + 1) / 2 == i && (j + 1) % 2 == 1;
      assert bs[j] == cs[i] / 256;
      assert bs[j + 1] == cs[i] % 256;
      assert BytesToChars(bs, |cs|)[i] == (bs[j] as int) * 256 + bs[j + 1];
    }
  }

  lemma CharsToBytesSnoc(cs: JString, c: Char16)
    ensures CharsToBytes(cs + [c]) == CharsToBytes(cs) + [c / 256, c % 256]
  {
    var l, r := CharsToBytes(cs + [c]), CharsToBytes(cs) + [c / 256, c % 256];
    forall j | 0 <= j < |l|
      ensures l[j] == r[j]
    {
      if j < 2 * |cs| {
        assert (cs + [c])[j / 2] == cs[j / 2];
      }
    }
  }

  /** String.replace("\u0000", ""): every NUL character is deleted, wherever
      it stands; the others keep their order. */
  function StripNul(cs: JString): (r: JString)
    ensures 0 !in r
  {
    if cs == [] then []
    else
      assert cs == [cs[0]] + cs[1..];
      (if cs[0] == 0 then [] else [cs[0]]) + StripNul(cs[1..])
  }

  /** Exactly the NULs go: the result is shorter by their number. */
  lemma {:induction false} StripNulLength(cs: JString)
    ensures |StripNul(cs)| == |cs| - multiset(cs)[0]
  {
    if cs != [] {
      assert cs == [cs[0]] + cs[1..];
      assert multiset(cs) == multiset{cs[0]} + multiset(cs[1..]);
      StripNulLength(cs[1..]);
    }
  }

  lemma {:induction false} StripNulAppend(a: JString, b: JString)
    ensures StripNul(a + b) == StripNul(a) + StripNul(b)
  {
    if a == [] {
      assert a + b == b;
    } else {
      assert (a + b)[0] == a[0];
      assert (a + b)[1..] == a[1..] + b;
      StripNulAppend(a[1..], b);
    }
  }

  lemma {:induction false} StripNulKeeps(cs: JString)
    requires 0 !in cs
    ensures StripNul(cs) == cs
  {
    if cs != [] {
      StripNulKeeps(cs[1..]);
    }
  }

  /** A NUL between two parts goes too, not only trailing ones: what is
      left is the two parts' own stripped characters, joined. */
  lemma {:induction false} StripNulInterior(a: JString, b: JString)
    ensures StripNul(a + [0] + b) == StripNul(a) + StripNul(b)
  {
    assert Nuls(1) == [0];
    StripNulAppend(a + Nuls(1), b);
    StripNulAppend(a, Nuls(1));
    StripNulOfNuls(1);
  }

  lemma PaddedSplit(value: JString, maxLen: nat)
    ensures Padded(value, maxLen) == value[..Min(|value|, maxLen)] + Nuls(maxLen - Min(|value|, maxLen))
  {
  }

  lemma {:induction false} StripNulOfNuls(n: nat)
    ensures StripNul(Nuls(n)) == []
  {
    if n > 0 {
      assert Nuls(n)[1..] == Nuls(n - 1);
      StripNulOfNuls(n - 1);
    }
  }

  /** Reading back a fixed-width field gives the value cut to maxLen
      characters, provided those characters hold no NUL. */
  lemma FixedStringRoundTrip(value: JString, maxLen: nat)
    requires 0 !in value[..Min(|value|, maxLen)]
    ensures StripNul(BytesToChars(CharsToBytes(Padded(value, maxLen)), maxLen)) == value[..Min(|value|, maxLen)]
  {
    var k := Min(|value|, maxLen);
    CharsRoundTrip(Padded(value, maxLen));
    PaddedSplit(value, maxLen);
    StripNulAppend(value[..k], Nuls(maxLen - k));
    StripNulKeeps(value[..k]);
    StripNulOfNuls(maxLen - k);
  }

  /** A NUL among the characters kept makes the field shorter than its length
      prefix once the NULs are deleted. */
  lemma FixedStringLosesNul(value: JString, maxLen: nat)
    requires 0 in value[..Min(|value|, maxLen)]
    ensures |StripNul(BytesToChars(CharsToBytes(Padded(value, maxLen)), maxLen))| < Min(|value|, maxLen)
  {
    var k := Min(|value|, maxLen);
    var p := Padded(value, maxLen);
    CharsRoundTrip(p);
    StripNulLength(p);
    PaddedSplit(value, maxLen);
    assert multiset(p) == multiset(value[..k]) + multiset(Nuls(maxLen - k));
    MultisetOfNuls(maxLen - k);
    assert multiset(value[..k])[0] >= 1;
  }

  lemma {:induction false} MultisetOfNuls(n: nat)
    ensures multiset(Nuls(n))[0] == n
  {
    if n > 0 {
      assert Nuls(n) == Nuls(n - 1) + [0];
      MultisetOfNuls(n - 1);
    }
  }

  method WriteFixedString(value: JString, maxLen: nat) returns (out: seq<Byte>)
    ensures out == CharsToBytes(Padded(value, maxLen))
  {
    out := [];
    var i := 0;
    while i < maxLen
      invariant 0 <= i <= maxLen
      invariant out == CharsToBytes(Padded(value, maxLen)[..i])
    {
      var c: Char16 := if i < |value| then value[i] else 0;
      CharsToBytesSnoc(Padded(value, maxLen)[..i], c);
      assert Padded(value, maxLen)[..i + 1] == Padded(value, maxLen)[..i] + [c];
      out := out + [c / 256, c % 256];
      i := i + 1;
    }
    assert Padded(value, maxLen)[..maxLen] == Padded(value, maxLen);
  }

  method ReadFixedString(bs: seq<Byte>, maxLen: nat) returns (s: JString)
    requires |bs| == 2 * maxLen
    ensures s == StripNul(BytesToChars(bs, maxLen))
  {
    var chars := new Char16[maxLen];
    for i := 0 to maxLen
      invariant forall j :: 0 <= j < i ==> chars[j] == BytesToChars(bs, maxLen)[j]
    {
      chars[i] := (bs[2 * i] as int) * 256 + bs[2 * i + 1];
    }
    assert chars[..] == BytesToChars(bs, maxLen);
    s := StripNul(chars[..]);
  }

  // ----- the record -----

  /** toByteArray: each string is its length (at most the field width) as an
      int, then exactly the field width of characters; the date is a long. */
  function Encode(o: Osoba): (r: seq<Byte>)
    ensures |r| == GetSize()
  {
    EncodeInt32(Min(|o.meno|, MaxMenoLength)) + CharsToBytes(Padded(o.meno, MaxMenoLength))
    + EncodeInt32(Min(|o.priezvisko|, MaxPriezviskoLength)) + CharsToBytes(Padded(o.priezvisko, MaxPriezviskoLength))
    + EncodeInt64(o.datumNarodenia)
    + EncodeInt32(Min(|o.uuid|, UuidLength)) + CharsToBytes(Padded(o.uuid, UuidLength))
  }

  /** Why fromByteArray throws: the stream ends early (EOFException), or a
      length prefix lies outside the characters left once NULs are deleted
      (StringIndexOutOfBoundsException from substring). */
  datatype DecodeError = EndOfStream | SubstringOutOfBounds

  /** s.substring(0, end). */
  function Prefix(s: JString, end: int): Result<JString, DecodeError>
  {
    if 0 <= end <= |s| then Success(s[..end]) else Failure(SubstringOutOfBounds)
  }

  /** readInt, then readFixedString and substring, for the field starting at
      byte off. */
  function DecodeString(bs: seq<Byte>, off: nat, maxLen: nat): Result<JString, DecodeError>
  {
    if |bs| < off + 4 + 2 * maxLen then Failure(EndOfStream)
    else Prefix(StripNul(BytesToChars(bs[off + 4..off + 4 + 2 * maxLen], maxLen)), DecodeInt32(bs[off..off + 4]))
  }

  /** fromByteArray, field by field in stream order. */
  function Decode(bs: seq<Byte>): Result<Osoba, DecodeError>
  {
    match DecodeString(bs, 0, MaxMenoLength)
    case Failure(e) => Failure(e)
    case Success(meno) =>
      match DecodeString(bs, 34, MaxPriezviskoLength)
      case Failure(e) => Failure(e)
      case Success(priezvisko) =>
        if |bs| < 74 then Failure(EndOfStream)
        else
          match DecodeString(bs, 74, UuidLength)
          case Failure(e) => Failure(e)
          case Success(uuid) => Success(Osoba(meno, priezvisko, DecodeInt64(bs[66..74]), uuid))
  }

  /** The layout of toByteArray, field by field. */
  lemma EncodeLayout(o: Osoba)
    ensures Encode(o)[0..4] == EncodeInt32(Min(|o.meno|, MaxMenoLength))
    ensures Encode(o)[4..34] == CharsToBytes(Padded(o.meno, MaxMenoLength))
    ensures Encode(o)[34..38] == EncodeInt32(Min(|o.priezvisko|, MaxPriezviskoLength))
    ensures Encode(o)[38..66] == CharsToBytes(Padded(o.priezvisko, MaxPriezviskoLength))
    ensures Encode(o)[66..74] == EncodeInt64(o.datumNarodenia)
    ensures Encode(o)[74..78] == EncodeInt32(Min(|o.uuid|, UuidLength))
    ensures Encode(o)[78..98] == CharsToBytes(Padded(o.uuid, UuidLength))
  {
  }

  /** What a person reads back as: every string cut to its field width. */
  function Truncated(o: Osoba): (t: Osoba)
  {
    Osoba(o.meno[..Min(|o.meno|, MaxMenoLength)],
          o.priezvisko[..Min(|o.priezvisko|, MaxPriezviskoLength)],
          o.datumNarodenia,
          o.uuid[..Min(|o.uuid|, UuidLength)])
  }

  /** Strings survive the round trip when they fit their fields and hold no NUL. */
  predicate WellFormed(o: Osoba)
  {
    |o.meno| <= MaxMenoLength && 0 !in o.meno
    && |o.priezvisko| <= MaxPriezviskoLength && 0 !in o.priezvisko
    && |o.uuid| <= UuidLength && 0 !in o.uuid
  }

  lemma DecodeStringOfField(bs: seq<Byte>, off: nat, maxLen: nat, value: JString)
    requires maxLen <= MaxMenoLength && |bs| >= off + 4 + 2 * maxLen
    requires bs[off..off + 4] == EncodeInt32(Min(|value|, maxLen))
    requires bs[off + 4..off + 4 + 2 * maxLen] == CharsToBytes(Padded(value, maxLen))
    requires 0 !in value[..Min(|value|, maxLen)]
    ensures DecodeString(bs, off, maxLen) == Success(value[..Min(|value|, maxLen)])
  {
    var k := Min(|value|, maxLen);
    Int32RoundTrip(k);
    assert DecodeInt32(bs[off..off + 4]) == k;
    FixedStringRoundTrip(value, maxLen);
    var chars := StripNul(BytesToChars(bs[off + 4..off + 4 + 2 * maxLen], maxLen));
    assert chars == value[..k];
    assert Prefix(chars, k) == Success(chars[..k]);
    assert chars[..k] == chars;
  }

  /** A field of zero bytes reads as the empty string. */
  lemma DecodeStringOfZeros(bs: seq<Byte>, off: nat, maxLen: nat)
    requires |bs| >= off + 4 + 2 * maxLen
    requires bs[off..off + 4] == Zeros(4)
    requires bs[off + 4..off + 4 + 2 * maxLen] == Zeros(2 * maxLen)
    ensures DecodeString(bs, off, maxLen) == Success([])
  {
    ZerosDecodeToZero(4);
    assert DecodeInt32(bs[off..off + 4]) == 0;
    assert BytesToChars(Zeros(2 * maxLen), maxLen) == Nuls(maxLen);
    StripNulOfNuls(maxLen);
  }

  /** Decoding the encoding of a person whose kept characters hold no NUL
      gives the person with every string cut to its field width. */
  lemma TruncatingRoundTrip(o: Osoba)
    requires 0 !in o.meno[..Min(|o.meno|, MaxMenoLength)]
    requires 0 !in o.priezvisko[..Min(|o.priezvisko|, MaxPriezviskoLength)]
    requires 0 !in o.uuid[..Min(|o.uuid|, UuidLength)]
    ensures Decode(Encode(o)) == Success(Truncated(o))
  {
    var bs := Encode(o);
    EncodeLayout(o);
    DecodeStringOfField(bs, 0, MaxMenoLength, o.meno);
    DecodeStringOfField(bs, 34, MaxPriezviskoLength, o.priezvisko);
    DecodeStringOfField(bs, 74, UuidLength, o.uuid);
    Int64RoundTrip(o.datumNarodenia);
    DecodeOfFields(bs, Truncated(o).meno, Truncated(o).priezvisko, Truncated(o).uuid);
  }

  /** fromByteArray(toByteArray(o)) reproduces all four fields. */
  lemma RoundTrip(o: Osoba)
    requires WellFormed(o)
    ensures Decode(Encode(o)) == Success(o)
  {
    assert o.meno[..|o.meno|] == o.meno;
    assert o.priezvisko[..|o.priezvisko|] == o.priezvisko;
    assert o.uuid[..|o.uuid|] == o.uuid;
    TruncatingRoundTrip(o);
  }

  /** A first name with a NUL among its first 15 characters cannot be read
      back: the substring call throws. */
  lemma NulInMenoIsUnreadable(o: Osoba)
    requires 0 in o.meno[..Min(|o.meno|, MaxMenoLength)]
    ensures Decode(Encode(o)) == Failure(SubstringOutOfBounds)
  {
    var bs := Encode(o);
    EncodeLayout(o);
    Int32RoundTrip(Min(|o.meno|, MaxMenoLength));
    FixedStringLosesNul(o.meno, MaxMenoLength);
  }

  /** A first-name length prefix larger than the characters left once the
      NULs of the first-name field are deleted makes substring(0, len)
      throw, whatever the rest of the buffer holds. */
  lemma LongMenoPrefixIsUnreadable(bs: seq<Byte>)
    requires |bs| >= GetSize()
    requires DecodeInt32(bs[0..4]) > |StripNul(BytesToChars(bs[4..34], MaxMenoLength))|
    ensures Decode(bs) == Failure(SubstringOutOfBounds)
  {
  }

  /** Decode succeeds exactly when its three string fields do. */
  lemma DecodeOfFields(bs: seq<Byte>, meno: JString, priezvisko: JString, uuid: JString)
    requires |bs| >= 98
    requires DecodeString(bs, 0, MaxMenoLength) == Success(meno)
    requires DecodeString(bs, 34, MaxPriezviskoLength) == Success(priezvisko)
    requires DecodeString(bs, 74, UuidLength) == Success(uuid)
    ensures Decode(bs) == Success(Osoba(meno, priezvisko, DecodeInt64(bs[66..74]), uuid))
  {
  }

  lemma ZeroField(bs: seq<Byte>, off: nat, maxLen: nat)
    requires maxLen <= MaxMenoLength && off + 4 + 2 * maxLen <= |bs|
    requires forall i :: 0 <= i < |bs| ==> bs[i] == 0
    ensures DecodeString(bs, off, maxLen) == Success([])
  {
    assert bs[off..off + 4] == Zeros(4);
    assert bs[off + 4..off + 4 + 2 * maxLen] == Zeros(2 * maxLen);
    DecodeStringOfZeros(bs, off, maxLen);
  }

  /** The blank person is what an empty slot holds: its encoding is all
      zero bytes (zero length prefixes, NUL characters, date 0). */
  lemma BlankEncodesToZeros()
    ensures Encode(Blank()) == Zeros(GetSize())
  {
    ZeroToBigEndian(4);
    ZeroToBigEndian(8);
    NulCharsAreZeros(MaxMenoLength);
    NulCharsAreZeros(MaxPriezviskoLength);
    NulCharsAreZeros(UuidLength);
  }

  lemma NulCharsAreZeros(n: nat)
    ensures CharsToBytes(Padded([], n)) == Zeros(2 * n)
  {
  }

  /** An all-zero buffer (what Block writes for an empty slot) reads as the
      blank person. */
  lemma DecodeZeros(bs: seq<Byte>)
    requires |bs| == GetSize() && forall i :: 0 <= i < |bs| ==> bs[i] == 0
    ensures Decode(bs) == Success(Blank())
  {
    ZeroField(bs, 0, MaxMenoLength);
    ZeroField(bs, 34, MaxPriezviskoLength);
    ZeroField(bs, 74, UuidLength);
    assert bs[66..74] == Zeros(8);
    ZerosDecodeToZero(8);
    DecodeOfFields(bs, [], [], []);
  }

  method ToByteArray(o: Osoba) returns (bytes: seq<Byte>)
    ensures bytes == Encode(o)
  {
    var meno := WriteFixedString(o.meno, MaxMenoLength);
    var priezvisko := WriteFixedString(o.priezvisko, MaxPriezviskoLength);
    var uuid := WriteFixedString(o.uuid, UuidLength);
    bytes := EncodeInt32(Min(|o.meno|, MaxMenoLength)) + meno
      + EncodeInt32(Min(|o.priezvisko|, MaxPriezviskoLength)) + priezvisko
      + EncodeInt64(o.datumNarodenia)
      + EncodeInt32(Min(|o.uuid|, UuidLength)) + uuid;
  }

  method FromByteArray(bs: seq<Byte>) returns (r: Result<Osoba, DecodeError>)
    ensures r == Decode(bs)
  {
    if |bs| < 34 {
      return Failure(EndOfStream);
    }
    var menoAll := ReadFixedString(bs[4..34], MaxMenoLength);
    var meno := Prefix(menoAll, DecodeInt32(bs[0..4]));
    if meno.Failure? {
      return Failure(meno.error);
    }
    if |bs| < 66 {
      return Failure(EndOfStream);
    }
    var priezAll := ReadFixedString(bs[38..66], MaxPriezviskoLength);
    var priezvisko := Prefix(priezAll, DecodeInt32(bs[34..38]));
    if priezvisko.Failure? {
      return Failure(priezvisko.error);
    }
    if |bs| < 98 {
      return Failure(EndOfStream);
    }
    var datum := DecodeInt64(bs[66..74]);
    var uuidAll := ReadFixedString(bs[78..98], UuidLength);
    var uuid := Prefix(uuidAll, DecodeInt32(bs[74..78]));
    if uuid.Failure? {
      return Failure(uuid.error);
    }
    r := Success(Osoba(meno.value, priezvisko.value, datum, uuid.value));
  }

  // ----- Osoba as the record type of a heap file -----

  function DecodeRecord(bs: seq<Byte>): Option<Osoba>
  {
    match Decode(bs)
    case Success(o) => Some(o)
    case Failure(_) => None
  }

  function Key(o: Osoba): JString
  {
    o.uuid
  }

  function Codec(): (c: RecordCodec<Osoba, JString>)
    ensures ValidCodec(c)
    ensures forall a, b :: Records.IsEqual(c, a, b) <==> IsEqual(a, b)
  {
    RecordCodec(GetSize(), Encode, DecodeRecord, Key)
  }

  /** Through the codec: a slot whose first-name length prefix is larger
      than the characters its first-name field keeps does not decode. */
  lemma CodecRejectsLongMenoPrefix(bs: seq<Byte>)
    requires |bs| == Codec().size
    requires DecodeInt32(bs[0..4]) > |StripNul(BytesToChars(bs[4..34], MaxMenoLength))|
    ensures Codec().decode(bs) == None
  {
    LongMenoPrefixIsUnreadable(bs);
  }

  /** Through the codec: a well-formed person decodes from its own encoding,
      and an empty slot (zero bytes) decodes as the blank person. */
  lemma CodecRoundTrip(o: Osoba, zeros: seq<Byte>)
    requires WellFormed(o)
    requires |zeros| == Codec().size && forall i :: 0 <= i < |zeros| ==> zeros[i] == 0
    ensures Codec().decode(Codec().encode(o)) == Some(o)
    ensures Codec().decode(zeros) == Some(Blank())
  {
    RoundTrip(o);
    DecodeZeros(zeros);
  }
}
