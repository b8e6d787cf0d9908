/**
  * Unpadded base64, as sections 4 and 3.2 of RFC 4648 describe it: the encoder and the decoder of the standard library
  * that the stored form of a password relies on.
  */
module UnpaddedBase64 {
  import opened Common

  type byte = n: int | 0 <= n < 256
  type sextet = n: int | 0 <= n < 64

  function Letter(n: sextet): char {
    if n < 26 then 'A' + n as char
    else if n < 52 then 'a' + (n - 26) as char
    else if n < 62 then '0' + (n - 52) as char
    else if n == 62 then '+'
    else '/'
  }

  function FromLetter(c: char): Option<sextet> {
    if 'A' <= c <= 'Z' then Some((c - 'A') as int)
    else if 'a' <= c <= 'z' then Some((c - 'a') as int + 26)
    else if '0' <= c <= '9' then Some((c - '0') as int + 52)
    else if c == '+' then Some(62)
    else if c == '/' then Some(63)
    else None
  }

  lemma LetterReadsBack(n: sextet)
    ensures FromLetter(Letter(n)) == Some(n)
    ensures Letter(n) != '$' && Letter(n) != '\r' && Letter(n) != '\n'
  {
  }

  /** The alphabet, in the order of the values it stands for. */
  const ALPHABET: string := "ABCDEFGHIJKLMNOPQRSTUVWXYZ" + "abcdefghijklmnopqrstuvwxyz" + "0123456789+/"

  lemma LetterOfAlphabet(n: sextet)
    ensures |ALPHABET| == 64 && Letter(n) == ALPHABET[n]
  {
  }

  /** The bits of the bytes in groups of six; the last group is filled up with zeros. */
  function Unpack(b: seq<byte>): seq<sextet> {
    if b == [] then []
    else if |b| == 1 then [b[0] / 4, b[0] % 4 * 16]
    else if |b| == 2 then [b[0] / 4, b[0] % 4 * 16 + b[1] / 16, b[1] % 16 * 4]
    else [b[0] / 4, b[0] % 4 * 16 + b[1] / 16, b[1] % 16 * 4 + b[2] / 64, b[2] % 64] + Unpack(b[3..])
  }

  function Letters(q: seq<sextet>): string {
    seq(|q|, i requires 0 <= i < |q| => Letter(q[i]))
  }

  function Encode(b: seq<byte>): string {
    Letters(Unpack(b))
  }

  /** The decoder skips line breaks wherever they stand. */
  function WithoutBreaks(s: string): string {
    if s == "" then ""
    else if s[0] == '\r' || s[0] == '\n' then WithoutBreaks(s[1..])
    else [s[0]] + WithoutBreaks(s[1..])
  }

  function Sextets(s: string): Option<seq<sextet>> {
    if forall i :: 0 <= i < |s| ==> FromLetter(s[i]).Some?
    then Some(seq(|s|, i requires 0 <= i < |s| => FromLetter(s[i]).value))
    else None
  }

  /** The three bytes that four sextets carry. */
  function Byte0(q0: int, q1: int): int { q0 * 4 + q1 / 16 }

  function Byte1(q1: int, q2: int): int { q1 % 16 * 16 + q2 / 4 }

  function Byte2(q2: int, q3: int): int { q2 % 4 * 64 + q3 }

  /** Whole groups of four, then none, two or three more; the unused bits of the last one are not looked at. */
  function Pack(q: seq<sextet>): Option<seq<byte>> {
    if q == [] then Some([])
    else if |q| == 1 then None
    else
      var a := Byte0(q[0], q[1]);
      if |q| == 2 then Some([a])
      else
        var b := Byte1(q[1], q[2]);
        if |q| == 3 then Some([a, b])
        else
          var rest := Pack(q[4..]);
          if rest.None? then None else Some([a, b, Byte2(q[2], q[3])] + rest.value)
  }

  function Decode(s: string): Option<seq<byte>> {
    var q := Sextets(WithoutBreaks(s));
    if q.None? then None else Pack(q.value)
  }

  lemma BytesReadBack(a: byte, b: byte, c: byte)
    ensures Byte0(a / 4, a % 4 * 16) == a && Byte0(a / 4, a % 4 * 16 + b / 16) == a
    ensures Byte1(a % 4 * 16 + b / 16, b % 16 * 4) == b && Byte1(a % 4 * 16 + b / 16, b % 16 * 4 + c / 64) == b
    ensures Byte2(b % 16 * 4 + c / 64, c % 64) == c
  {
  }

  lemma {:induction false} PackUnpacks(b: seq<byte>)
    ensures Pack(Unpack(b)) == Some(b)
  {
    hide Byte0, Byte1, Byte2;
    if b == [] {
    } else if |b| == 1 {
      BytesReadBack(b[0], 0, 0);
      assert b == [b[0]];
    } else if |b| == 2 {
      BytesReadBack(b[0], b[1], 0);
      assert b == [b[0], b[1]];
    } else {
      PackUnpacks(b[3..]);
      BytesReadBack(b[0], b[1], b[2]);
      var q := Unpack(b);
      assert q[4..] == Unpack(b[3..]);
      assert b == [b[0], b[1], b[2]] + b[3..];
    }
  }

  lemma {:induction false} NoBreaks(s: string)
    requires '\r' !in s && '\n' !in s
    ensures WithoutBreaks(s) == s
  {
    if s != "" {
      NoBreaks(s[1..]);
      assert s == [s[0]] + s[1..];
    }
  }

  lemma LettersReadBack(q: seq<sextet>)
    ensures Sextets(Letters(q)) == Some(q) && WithoutBreaks(Letters(q)) == Letters(q) && '$' !in Letters(q)
  {
    hide Letter, FromLetter;
    forall i | 0 <= i < |q|
      ensures FromLetter(Letters(q)[i]) == Some(q[i])
      ensures Letters(q)[i] != '$' && Letters(q)[i] != '\r' && Letters(q)[i] != '\n'
    {
      LetterReadsBack(q[i]);
    }
    NoBreaks(Letters(q));
    assert Sextets(Letters(q)).value == q;
  }

  /** Decoding inverts encoding on every byte string, and no field separator can appear in an encoding. */
  lemma Base64RoundTrip(b: seq<byte>)
    ensures Decode(Encode(b)) == Some(b) && '$' !in Encode(b)
  {
    hide Unpack, Letters, Sextets, WithoutBreaks, Pack;
    LettersReadBack(Unpack(b));
    PackUnpacks(b);
  }

  /** The number that digits stand for after a leading part, the most significant first. */
  function Number(digits: seq<int>, base: int, leading: int): int {
    if digits == [] then leading else Number(digits[1..], base, leading * base + digits[0])
  }

  /** What a number is multiplied by when its last group of six bits is filled up with zeros. */
  function Filling(bytes: nat): (f: int)
    ensures bytes % 3 == 0 ==> f == 1
    ensures bytes % 3 == 1 ==> f == 16
    ensures bytes % 3 == 2 ==> f == 4
  {
    if bytes % 3 == 0 then 1 else if bytes % 3 == 1 then 16 else 4
  }

  /** The number of up to four digits before some more. */
  lemma NumberOf(a: int, b: int, c: int, d: int, more: seq<int>, base: int, leading: int)
    ensures Number([a] + more, base, leading) == Number(more, base, leading * base + a)
    ensures Number([a, b] + more, base, leading) == Number(more, base, (leading * base + a) * base + b)
    ensures Number([a, b, c] + more, base, leading) ==
            Number(more, base, ((leading * base + a) * base + b) * base + c)
    ensures Number([a, b, c, d] + more, base, leading) ==
            Number(more, base, (((leading * base + a) * base + b) * base + c) * base + d)
  {
    hide Number;
    var cd, bcd := [c] + ([d] + more), [b] + ([c] + ([d] + more));
    NumberCons(a, more, base, leading);
    NumberCons(a, [b] + more, base, leading);
    NumberCons(b, more, base, leading * base + a);
    NumberCons(a, [b] + ([c] + more), base, leading);
    NumberCons(b, [c] + more, base, leading * base + a);
    NumberCons(c, more, base, (leading * base + a) * base + b);
    NumberCons(a, bcd, base, leading);
    NumberCons(b, cd, base, leading * base + a);
    NumberCons(c, [d] + more, base, (leading * base + a) * base + b);
    NumberCons(d, more, base, ((leading * base + a) * base + b) * base + c);
    assert [a, b] + more == [a] + ([b] + more) && [a, b, c] + more == [a] + ([b] + ([c] + more));
    assert [a, b, c, d] + more == [a] + bcd;
  }

  lemma NumberCons(a: int, more: seq<int>, base: int, leading: int)
    ensures Number([a] + more, base, leading) == Number(more, base, leading * base + a)
  {
    assert ([a] + more)[1..] == more;
  }

  lemma NumberOfNone(base: int, leading: int)
    ensures Number([], base, leading) == leading
  {
  }

  lemma UnpackedNumber(leading: int, a: byte, b: byte, c: byte)
    ensures (leading * 64 + a / 4) * 64 + a % 4 * 16 == (leading * 256 + a) * 16
    ensures ((leading * 64 + a / 4) * 64 + (a % 4 * 16 + b / 16)) * 64 + b % 16 * 4 ==
            ((leading * 256 + a) * 256 + b) * 4
    ensures (((leading * 64 + a / 4) * 64 + (a % 4 * 16 + b / 16)) * 64 + (b % 16 * 4 + c / 64)) * 64 + c % 64 ==
            ((leading * 256 + a) * 256 + b) * 256 + c
  {
  }

  lemma UnpackShort(b: seq<byte>, leading: int)
    requires |b| == 1 || |b| == 2
    ensures Number(Unpack(b), 64, leading) == Number(b, 256, leading) * Filling(|b|)
  {
    hide Number;
    var more: seq<int> := [];
    if |b| == 1 {
      var x, y := b[0] / 4, b[0] % 4 * 16;
      UnpackedNumber(leading, b[0], 0, 0);
      NumberOf(x, y, 0, 0, more, 64, leading);
      NumberOf(b[0], 0, 0, 0, more, 256, leading);
      NumberOfNone(64, (leading * 64 + x) * 64 + y);
      NumberOfNone(256, leading * 256 + b[0]);
      assert b == [b[0]] + more && Unpack(b) == [x, y] + more;
    } else {
      var x, y, z := b[0] / 4, b[0] % 4 * 16 + b[1] / 16, b[1] % 16 * 4;
      UnpackedNumber(leading, b[0], b[1], 0);
      NumberOf(x, y, z, 0, more, 64, leading);
      NumberOf(b[0], b[1], 0, 0, more, 256, leading);
      NumberOfNone(64, ((leading * 64 + x) * 64 + y) * 64 + z);
      NumberOfNone(256, (leading * 256 + b[0]) * 256 + b[1]);
      assert b == [b[0], b[1]] + more && Unpack(b) == [x, y, z] + more;
    }
  }

  lemma {:induction false} UnpackLength(b: seq<byte>)
    ensures |Unpack(b)| == (4 * |b| + 2) / 3
  {
    if |b| > 2 {
      UnpackLength(b[3..]);
    }
  }

  lemma SameFilling(n: nat)
    ensures Filling(n + 3) == Filling(n)
  {
  }

  lemma {:induction false} UnpackNumber(b: seq<byte>, leading: int)
    ensures Number(Unpack(b), 64, leading) == Number(b, 256, leading) * Filling(|b|)
  {
    hide Number;
    if b == [] {
      NumberOfNone(64, leading);
      NumberOfNone(256, leading);
    } else if |b| < 3 {
      UnpackShort(b, leading);
    } else {
      var x, y, z, w := b[0] / 4, b[0] % 4 * 16 + b[1] / 16, b[1] % 16 * 4 + b[2] / 64, b[2] % 64;
      UnpackedNumber(leading, b[0], b[1], b[2]);
      NumberOf(x, y, z, w, Unpack(b[3..]), 64, leading);
      NumberOf(b[0], b[1], b[2], 0, b[3..], 256, leading);
      SameFilling(|b[3..]|);
      UnpackNumber(b[3..], ((leading * 256 + b[0]) * 256 + b[1]) * 256 + b[2]);
      assert b == [b[0], b[1], b[2]] + b[3..];
    }
  }

  lemma PackedNumber(leading: int, x: sextet, y: sextet, z: sextet, w: sextet)
    ensures leading * 256 + Byte0(x, y) == ((leading * 64 + x) * 64 + y) / 16
    ensures (leading * 256 + Byte0(x, y)) * 256 + Byte1(y, z) == (((leading * 64 + x) * 64 + y) * 64 + z) / 4
    ensures ((leading * 256 + Byte0(x, y)) * 256 + Byte1(y, z)) * 256 + Byte2(z, w) ==
            (((leading * 64 + x) * 64 + y) * 64 + z) * 64 + w
  {
  }

  lemma PackShort(q: seq<sextet>, leading: int)
    requires |q| == 2 || |q| == 3
    ensures Pack(q).Some? && |Pack(q).value| == |q| - 1
    ensures Number(Pack(q).value, 256, leading) == Number(q, 64, leading) / Filling(|q| - 1)
  {
    hide Number, Byte0, Byte1, Byte2;
    var more: seq<int> := [];
    var a := Byte0(q[0], q[1]);
    if |q| == 2 {
      PackedNumber(leading, q[0], q[1], 0, 0);
      NumberOf(q[0], q[1], 0, 0, more, 64, leading);
      NumberOf(a, 0, 0, 0, more, 256, leading);
      NumberOfNone(64, (leading * 64 + q[0]) * 64 + q[1]);
      NumberOfNone(256, leading * 256 + a);
      assert q == [q[0], q[1]] + more && Pack(q).value == [a] + more;
    } else {
      var b := Byte1(q[1], q[2]);
      PackedNumber(leading, q[0], q[1], q[2], 0);
      NumberOf(q[0], q[1], q[2], 0, more, 64, leading);
      NumberOf(a, b, 0, 0, more, 256, leading);
      NumberOfNone(64, ((leading * 64 + q[0]) * 64 + q[1]) * 64 + q[2]);
      NumberOfNone(256, (leading * 256 + a) * 256 + b);
      assert q == [q[0], q[1], q[2]] + more && Pack(q).value == [a, b] + more;
    }
  }

  lemma {:induction false} PackLength(q: seq<sextet>)
    ensures Pack(q).Some? <==> |q| % 4 != 1
    ensures Pack(q).Some? ==> |Pack(q).value| == |q| * 3 / 4
  {
    hide Byte0, Byte1, Byte2;
    if |q| > 3 {
      PackLength(q[4..]);
    }
  }

  lemma {:induction false} PackNumber(q: seq<sextet>, leading: int)
    ensures Pack(q).Some? ==>
              Number(Pack(q).value, 256, leading) == Number(q, 64, leading) / Filling(|Pack(q).value|)
  {
    hide Number, Byte0, Byte1, Byte2, Filling;
    if q == [] {
      NumberOfNone(64, leading);
      NumberOfNone(256, leading);
      assert Filling(0) == 1;
    } else if 1 < |q| < 4 {
      PackShort(q, leading);
    } else if |q| > 3 {
      PackNumber(q[4..], (((leading * 64 + q[0]) * 64 + q[1]) * 64 + q[2]) * 64 + q[3]);
      if Pack(q[4..]).Some? {
        PackStep(q, leading);
        SameFilling(|Pack(q[4..]).value|);
      }
    }
  }

  lemma PackStep(q: seq<sextet>, leading: int)
    requires |q| > 3 && Pack(q[4..]).Some?
    ensures var next := (((leading * 64 + q[0]) * 64 + q[1]) * 64 + q[2]) * 64 + q[3];
            && Number(q, 64, leading) == Number(q[4..], 64, next)
            && Pack(q).Some? && |Pack(q).value| == 3 + |Pack(q[4..]).value|
            && Number(Pack(q).value, 256, leading) == Number(Pack(q[4..]).value, 256, next)
  {
    hide Number, Byte0, Byte1, Byte2;
    var a, b, c := Byte0(q[0], q[1]), Byte1(q[1], q[2]), Byte2(q[2], q[3]);
    PackedNumber(leading, q[0], q[1], q[2], q[3]);
    NumberOf(q[0], q[1], q[2], q[3], q[4..], 64, leading);
    NumberOf(a, b, c, 0, Pack(q[4..]).value, 256, leading);
    assert q == [q[0], q[1], q[2], q[3]] + q[4..];
    assert Pack(q).value == [a, b, c] + Pack(q[4..]).value;
  }

  /** A text is written in the letters of the alphabet that stand for some values. */
  ghost predicate Spells(s: string, q: seq<sextet>) {
    |s| == |q| && forall i :: 0 <= i < |q| ==> s[i] == ALPHABET[q[i]]
  }

  lemma LettersSpell(q: seq<sextet>)
    ensures Spells(Letters(q), q)
  {
    hide Letter;
    forall i | 0 <= i < |q|
      ensures Letters(q)[i] == ALPHABET[q[i]]
    {
      LetterOfAlphabet(q[i]);
    }
  }

  /**
    * The letters of an encoding are the digits, of base 64, of the number that the bytes are in base 256, multiplied by
    * 16 or 4 if the last group is short.
    */
  lemma EncodeSpells(b: seq<byte>) returns (q: seq<sextet>)
    ensures Spells(Encode(b), q) && |q| == (4 * |b| + 2) / 3
    ensures Number(q, 64, 0) == Number(b, 256, 0) * Filling(|b|)
  {
    hide Unpack, Letters, Spells, Number, Filling;
    q := Unpack(b);
    LettersSpell(q);
    UnpackLength(b);
    UnpackNumber(b, 0);
  }

  lemma {:induction false} BreaksSkipped(s: string, c: char)
    ensures WithoutBreaks("") == ""
    ensures WithoutBreaks(s + [c]) == WithoutBreaks(s) + if c == '\r' || c == '\n' then "" else [c]
  {
    if s == "" {
      assert s + [c] == [c];
    } else {
      BreaksSkipped(s[1..], c);
      assert (s + [c])[1..] == s[1..] + [c];
    }
  }

  lemma LetterIff(c: char, n: sextet)
    ensures FromLetter(c) == Some(n) <==> c == Letter(n)
  {
  }

  lemma SextetsIff(s: string, q: seq<sextet>)
    ensures Sextets(s) == Some(q) <==> Spells(s, q)
  {
    hide FromLetter, Letter;
    forall i | 0 <= i < |s| && i < |q|
      ensures FromLetter(s[i]) == Some(q[i]) <==> s[i] == ALPHABET[q[i]]
    {
      LetterIff(s[i], q[i]);
      LetterOfAlphabet(q[i]);
    }
    if Spells(s, q) {
      assert Sextets(s).value == q;
    }
  }

  /** The bytes are the number that the digits stand for, without the bits that fill up the last letter. */
  ghost predicate Carries(q: seq<sextet>, b: seq<byte>) {
    |b| == |q| * 3 / 4 && Number(b, 256, 0) == Number(q, 64, 0) / Filling(|b|)
  }

  lemma PackCarries(q: seq<sextet>)
    ensures Pack(q).Some? <==> |q| % 4 != 1
    ensures Pack(q).Some? ==> Carries(q, Pack(q).value)
  {
    hide Pack, Number, Filling;
    PackLength(q);
    PackNumber(q, 0);
  }

  /** A text is decoded if, line breaks aside, it is a number in the letters and its last group is no single letter. */
  lemma DecodeReads(s: string)
    ensures Decode(s).Some? <==> exists q: seq<sextet> :: Spells(WithoutBreaks(s), q) && |q| % 4 != 1
    ensures forall q: seq<sextet> :: Spells(WithoutBreaks(s), q) && |q| % 4 != 1 ==>
              Decode(s).Some? && Carries(q, Decode(s).value)
  {
    hide Sextets, Spells, Pack, WithoutBreaks, Carries;
    var t := WithoutBreaks(s);
    forall q: seq<sextet>
      ensures Sextets(t) == Some(q) <==> Spells(t, q)
      ensures Pack(q).Some? <==> |q| % 4 != 1
      ensures Pack(q).Some? ==> Carries(q, Pack(q).value)
    {
      SextetsIff(t, q);
      PackCarries(q);
    }
    if Decode(s).Some? {
      assert Spells(t, Sextets(t).value);
    }
  }
}
