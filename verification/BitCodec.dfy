/**
 The base64 bit codec of the talent calculator: six bits a character, least significant bit first,
 over the alphabet of section 4 of RFC 4648 with its last letter changed to ':' in hashes.
 */
module BitCodec {
  import opened Wrappers

  type Bit = b: nat | b < 2

  // ---------------------------------------------------------------- numbers and bits

  function Pow2(n: nat): (p: nat)
    ensures p > 0
  {
    if n == 0 then 1 else 2 * Pow2(n - 1)
  }

  lemma PowersOfTwo()
    ensures Pow2(2) == 4 && Pow2(6) == 64 && Pow2(8) == 256 && Pow2(12) == 4096 && Pow2(16) == 65536
  {
    assert Pow2(4) == 16 && Pow2(10) == 1024 && Pow2(14) == 16384;
  }

  /** The low `width` bits of a number, least significant first. */
  function BitsOf(value: nat, width: nat): (bits: seq<Bit>)
    ensures |bits| == width
  {
    if width == 0 then [] else [value % 2] + BitsOf(value / 2, width - 1)
  }

  function ValueOf(bits: seq<Bit>): (value: nat)
    ensures value < Pow2(|bits|)
  {
    if bits == [] then 0 else bits[0] + 2 * ValueOf(bits[1..])
  }

  lemma {:induction false} ValueOfBitsOf(value: nat, width: nat)
    requires value < Pow2(width)
    ensures ValueOf(BitsOf(value, width)) == value
  {
    if width > 0 {
      ValueOfBitsOf(value / 2, width - 1);
      assert BitsOf(value, width)[1..] == BitsOf(value / 2, width - 1);
    }
  }

  lemma {:induction false} BitsOfValueOf(bits: seq<Bit>)
    ensures BitsOf(ValueOf(bits), |bits|) == bits
  {
    if bits != [] {
      BitsOfValueOf(bits[1..]);
      assert bits == [bits[0]] + bits[1..];
    }
  }

  lemma DoubleProduct(p: nat, v: nat)
    ensures 2 * (p * v) == (2 * p) * v
  {
  }

  lemma {:induction false} ValueOfConcat(low: seq<Bit>, high: seq<Bit>)
    ensures ValueOf(low + high) == ValueOf(low) + Pow2(|low|) * ValueOf(high)
  {
    if low == [] {
      assert low + high == high;
    } else {
      ValueOfConcat(low[1..], high);
      assert (low + high)[1..] == low[1..] + high;
      DoubleProduct(Pow2(|low| - 1), ValueOf(high));
    }
  }

  /** Python's `value >> count` on a number that is not negative. */
  function ShiftRight(value: nat, count: nat): nat
  {
    if count == 0 then value else ShiftRight(value / 2, count - 1)
  }

  /** Bit `k` is what shifting right by `k` and masking gives. */
  lemma {:induction false} BitsOfShift(value: nat, width: nat, k: nat)
    requires k < width
    ensures BitsOf(value, width)[k] == ShiftRight(value, k) % 2
  {
    if k > 0 {
      BitsOfShift(value / 2, width - 1, k - 1);
    }
  }

  function Zeros(n: nat): (bits: seq<Bit>)
    ensures |bits| == n
  {
    if n == 0 then [] else [0] + Zeros(n - 1)
  }

  lemma {:induction false} ZerosAreZero(n: nat)
    ensures forall k | 0 <= k < n :: Zeros(n)[k] == 0
    ensures BitsOf(0, n) == Zeros(n)
  {
    if n > 0 {
      ZerosAreZero(n - 1);
    }
  }

  // ---------------------------------------------------------------- letters

  datatype Alphabet = HashAlphabet | ExportAlphabet

  const UPPER := "ABCDEFGHIJKLMNOPQRSTUVWXYZ"
  const LOWER := "abcdefghijklmnopqrstuvwxyz"
  const DIGITS := "0123456789"
  const HASH_LETTERS := UPPER + LOWER + DIGITS + "+:"
  const EXPORT_LETTERS := UPPER + LOWER + DIGITS + "+/"

  function LastLetter(alphabet: Alphabet): char
  {
    if alphabet.HashAlphabet? then ':' else '/'
  }

  /** The letter of a sextet: the alphabet string at that index. */
  function Letter(alphabet: Alphabet, sextet: nat): char
    requires sextet < 64
  {
    if sextet < 26 then (65 + sextet) as char
    else if sextet < 52 then (97 + sextet - 26) as char
    else if sextet < 62 then (48 + sextet - 52) as char
    else if sextet == 62 then '+'
    else LastLetter(alphabet)
  }

  /** The index of a letter in the alphabet string, or nothing for a character outside it. */
  function Sextet(alphabet: Alphabet, c: char): (sextet: Option<nat>)
    ensures sextet.Some? ==> sextet.value < 64 && Letter(alphabet, sextet.value) == c
  {
    if 'A' <= c <= 'Z' then Some(c as int - 65)
    else if 'a' <= c <= 'z' then Some(c as int - 97 + 26)
    else if '0' <= c <= '9' then Some(c as int - 48 + 52)
    else if c == '+' then Some(62)
    else if c == LastLetter(alphabet) then Some(63)
    else None
  }

  lemma SextetOfLetter(alphabet: Alphabet, sextet: nat)
    requires sextet < 64
    ensures Sextet(alphabet, Letter(alphabet, sextet)) == Some(sextet)
  {
  }

  lemma RunOfLetters()
    ensures |UPPER| == 26 && forall i | 0 <= i < 26 :: UPPER[i] as int == 65 + i
    ensures |LOWER| == 26 && forall i | 0 <= i < 26 :: LOWER[i] as int == 97 + i
    ensures |DIGITS| == 10 && forall i | 0 <= i < 10 :: DIGITS[i] as int == 48 + i
  {
  }

  ghost predicate Spells(letters: string, alphabet: Alphabet)
  {
    |letters| == 64 && forall v | 0 <= v < 64 :: letters[v] == Letter(alphabet, v)
  }

  lemma FourRunsSpell(upper: string, lower: string, digits: string, marks: string, alphabet: Alphabet)
    requires |upper| == 26 && forall i | 0 <= i < 26 :: upper[i] as int == 65 + i
    requires |lower| == 26 && forall i | 0 <= i < 26 :: lower[i] as int == 97 + i
    requires |digits| == 10 && forall i | 0 <= i < 10 :: digits[i] as int == 48 + i
    requires marks == ['+', LastLetter(alphabet)]
    ensures Spells(upper + lower + digits + marks, alphabet)
  {
  }

  /** `Letter` is indexing into the two alphabet strings. */
  lemma LettersSpell()
    ensures Spells(HASH_LETTERS, HashAlphabet)
    ensures Spells(EXPORT_LETTERS, ExportAlphabet)
  {
    RunOfLetters();
    FourRunsSpell(UPPER, LOWER, DIGITS, "+:", HashAlphabet);
    FourRunsSpell(UPPER, LOWER, DIGITS, "+/", ExportAlphabet);
  }

  // ---------------------------------------------------------------- text and bits

  predicate Readable(alphabet: Alphabet, text: string)
  {
    forall c | c in text :: Sextet(alphabet, c).Some?
  }

  function TextBits(alphabet: Alphabet, text: string): (bits: seq<Bit>)
    requires Readable(alphabet, text)
    ensures |bits| == 6 * |text|
  {
    if text == "" then []
    else
      assert forall c | c in text[1..] :: c in text;
      assert text[0] in text;
      BitsOf(Sextet(alphabet, text[0]).value, 6) + TextBits(alphabet, text[1..])
  }

  function SextetText(alphabet: Alphabet, bits: seq<Bit>): (text: string)
    requires |bits| % 6 == 0
    ensures Readable(alphabet, text)
    ensures 6 * |text| == |bits|
  {
    if bits == [] then ""
    else
      PowersOfTwo();
      SextetOfLetter(alphabet, ValueOf(bits[..6]));
      [Letter(alphabet, ValueOf(bits[..6]))] + SextetText(alphabet, bits[6..])
  }

  /** How many zero bits fill the last character; Python's `-n % 6` is never negative. */
  function PadLength(n: nat): (pad: nat)
    ensures pad < 6 && (n + pad) % 6 == 0
  {
    if n % 6 == 0 then 0 else 6 - n % 6
  }

  function TextOf(alphabet: Alphabet, bits: seq<Bit>): (text: string)
    ensures Readable(alphabet, text)
  {
    SextetText(alphabet, bits + Zeros(PadLength(|bits|)))
  }

  lemma {:induction false} TextBitsOfSextetText(alphabet: Alphabet, bits: seq<Bit>)
    requires |bits| % 6 == 0
    ensures TextBits(alphabet, SextetText(alphabet, bits)) == bits
  {
    if bits != [] {
      var text := SextetText(alphabet, bits);
      PowersOfTwo();
      SextetOfLetter(alphabet, ValueOf(bits[..6]));
      TextBitsOfSextetText(alphabet, bits[6..]);
      assert text[1..] == SextetText(alphabet, bits[6..]);
      BitsOfValueOf(bits[..6]);
      assert bits == bits[..6] + bits[6..];
    }
  }

  /** Written bits come back followed by fewer than six zero bits. */
  lemma TextBitsOfTextOf(alphabet: Alphabet, bits: seq<Bit>)
    ensures TextBits(alphabet, TextOf(alphabet, bits)) == bits + Zeros(PadLength(|bits|))
  {
    TextBitsOfSextetText(alphabet, bits + Zeros(PadLength(|bits|)));
  }

  lemma TextBitsHead(alphabet: Alphabet, text: string)
    requires Readable(alphabet, text) && text != ""
    ensures text[0] in text && Readable(alphabet, text[1..])
    ensures TextBits(alphabet, text)[..6] == BitsOf(Sextet(alphabet, text[0]).value, 6)
    ensures TextBits(alphabet, text)[6..] == TextBits(alphabet, text[1..])
  {
    assert text[0] in text && forall c | c in text[1..] :: c in text;
    hide Sextet, BitsOf;
  }

  lemma {:induction false} SextetTextOfTextBits(alphabet: Alphabet, text: string)
    requires Readable(alphabet, text)
    ensures SextetText(alphabet, TextBits(alphabet, text)) == text
  {
    hide TextBits, BitsOf, ValueOf, Letter, Pow2;
    if text != "" {
      PowersOfTwo();
      TextBitsHead(alphabet, text);
      var sextet := Sextet(alphabet, text[0]).value;
      ValueOfBitsOf(sextet, 6);
      SextetTextOfTextBits(alphabet, text[1..]);
      assert text == [text[0]] + text[1..];
    }
  }

  // ---------------------------------------------------------------- reading

  /** The next `width` bits of what is left, or nothing when fewer remain. */
  function Peek(rest: seq<Bit>, width: nat): Option<nat>
  {
    if |rest| < width then None else Some(ValueOf(rest[..width]))
  }

  /** What is left after that read: a read that fails moves nothing. */
  function After(rest: seq<Bit>, width: nat): seq<Bit>
  {
    if |rest| < width then rest else rest[width..]
  }

  lemma PeekWritten(value: nat, width: nat, tail: seq<Bit>)
    requires value < Pow2(width)
    ensures Peek(BitsOf(value, width) + tail, width) == Some(value)
    ensures After(BitsOf(value, width) + tail, width) == tail
  {
    ValueOfBitsOf(value, width);
    assert (BitsOf(value, width) + tail)[..width] == BitsOf(value, width);
  }

  class BitReader {
    const bits: seq<Bit>
    var index: nat

    ghost predicate Valid()
      reads this
    {
      index <= |bits|
    }

    ghost function Rest(): seq<Bit>
      reads this
      requires Valid()
    {
      bits[index..]
    }

    constructor (alphabet: Alphabet, text: string)
      requires Readable(alphabet, text)
      ensures Valid() && Rest() == TextBits(alphabet, text)
    {
      bits := TextBits(alphabet, text);
      index := 0;
    }

    method Read(width: nat) returns (value: Option<nat>)
      requires Valid()
      modifies this
      ensures Valid()
      ensures value == Peek(old(Rest()), width)
      ensures Rest() == After(old(Rest()), width)
      ensures value.None? <==> |old(Rest())| < width
      ensures value.None? ==> Rest() == old(Rest())
      ensures value.Some? ==> BitsOf(value.value, width) + Rest() == old(Rest())
    {
      if index + width > |bits| {
        return None;
      }
      assert bits[index..][..width] == bits[index..index + width];
      value := Some(ValueOf(bits[index..index + width]));
      BitsOfValueOf(bits[index..index + width]);
      index := index + width;
    }
  }

  class BitWriter {
    var bits: seq<Bit>

    constructor ()
      ensures bits == []
    {
      bits := [];
    }

    method Write(value: nat, width: nat)
      modifies this
      ensures bits == old(bits) + BitsOf(value, width)
    {
      var before := bits;
      for offset := 0 to width
        invariant bits == before + BitsOf(value, width)[..offset]
      {
        BitsOfShift(value, width, offset);
        bits := bits + [ShiftRight(value, offset) % 2];
      }
    }

    method Text() returns (text: string)
      ensures text == TextOf(ExportAlphabet, bits)
    {
      text := SextetLetters(bits + Zeros(PadLength(|bits|)));
    }
  }

  method SextetLetters(bits: seq<Bit>) returns (text: string)
    requires |bits| % 6 == 0
    ensures text == SextetText(ExportAlphabet, bits)
  {
    PowersOfTwo();
    hide SextetText, Letter, ValueOf, Pow2;
    text := "";
    var i := 0;
    ghost var left := bits;
    while i < |bits|
      invariant 0 <= i <= |bits| && left == bits[i..] && |left| % 6 == 0
      invariant text + SextetText(ExportAlphabet, left) == SextetText(ExportAlphabet, bits)
    {
      SixAtATime(|left|);
      SextetTextStep(ExportAlphabet, left);
      assert left[..6] == bits[i..i + 6];
      text := text + [Letter(ExportAlphabet, ValueOf(bits[i..i + 6]))];
      left := left[6..];
      i := i + 6;
    }
    SextetTextStep(ExportAlphabet, left);
  }

  lemma SixAtATime(n: nat)
    requires n % 6 == 0 && n > 0
    ensures n >= 6 && (n - 6) % 6 == 0
  {
  }

  lemma SextetTextStep(alphabet: Alphabet, bits: seq<Bit>)
    requires |bits| % 6 == 0
    ensures bits != [] ==> ValueOf(bits[..6]) < 64
    ensures SextetText(alphabet, bits) ==
            if bits == [] then ""
            else [Letter(alphabet, ValueOf(bits[..6]))] + SextetText(alphabet, bits[6..])
  {
    PowersOfTwo();
  }

  // ---------------------------------------------------------------- the codec round trip

  datatype Field = Field(value: nat, width: nat)

  predicate Fits(fields: seq<Field>)
  {
    forall f | f in fields :: f.value < Pow2(f.width)
  }

  function FieldBits(fields: seq<Field>): seq<Bit>
  {
    if fields == [] then [] else BitsOf(fields[0].value, fields[0].width) + FieldBits(fields[1..])
  }

  /** Read one value after another with the given widths; nothing once a read comes up short. */
  function ReadFields(rest: seq<Bit>, widths: seq<nat>): Option<(seq<nat>, seq<Bit>)>
  {
    if widths == [] then Some(([], rest))
    else match Peek(rest, widths[0])
      case None => None
      case Some(value) =>
        match ReadFields(After(rest, widths[0]), widths[1..])
        case None => None
        case Some((values, left)) => Some(([value] + values, left))
  }

  function Values(fields: seq<Field>): seq<nat>
  {
    if fields == [] then [] else [fields[0].value] + Values(fields[1..])
  }

  function Widths(fields: seq<Field>): seq<nat>
  {
    if fields == [] then [] else [fields[0].width] + Widths(fields[1..])
  }

  lemma {:induction false} ReadBackFields(fields: seq<Field>, tail: seq<Bit>)
    requires Fits(fields)
    ensures ReadFields(FieldBits(fields) + tail, Widths(fields)) == Some((Values(fields), tail))
  {
    if fields == [] {
      assert FieldBits(fields) + tail == tail;
    } else {
      var head, rest := fields[0], fields[1..];
      assert head in fields;
      assert Fits(rest) by {
        assert forall f | f in rest :: f in fields;
      }
      ReadBackFields(rest, tail);
      PeekWritten(head.value, head.width, FieldBits(rest) + tail);
      assert FieldBits(fields) + tail == BitsOf(head.value, head.width) + (FieldBits(rest) + tail);
    }
  }

  /** Any list of writes, turned into text and read with the same widths, comes back; the padding is zero. */
  lemma FieldsRoundTrip(alphabet: Alphabet, fields: seq<Field>)
    requires Fits(fields)
    ensures var read := ReadFields(TextBits(alphabet, TextOf(alphabet, FieldBits(fields))), Widths(fields));
            read.Some? && read.value.0 == Values(fields)
            && |read.value.1| < 6 && forall bit | bit in read.value.1 :: bit == 0
  {
    var bits := FieldBits(fields);
    var pad := PadLength(|bits|);
    TextBitsOfTextOf(alphabet, bits);
    ReadBackFields(fields, Zeros(pad));
    ZerosAreZero(pad);
  }
}
