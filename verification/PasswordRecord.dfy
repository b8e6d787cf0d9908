/**
  * The stored form of a password: the parameters of the key derivation, the salt and the derived key, printed into one
  * line with `$` between the fields and unpadded base64 (sections 4 and 3.2 of RFC 4648), and parsed back to check a
  * password. The key derivation itself is a parameter.
  */
module PasswordRecord {
  import opened Common
  import opened Decimal
  import opened Text
  import opened UnpaddedBase64

  // ---------------------------------------------------------------------------------------------------------------
  // The parameters
  // ---------------------------------------------------------------------------------------------------------------

  /** What is left of `s` after the literal `word`. */
  function Expect(s: string, word: string): Option<string> {
    if word <= s then Some(s[|word|..]) else None
  }

  predicate IsBlank(c: char) {
    c == ' ' || c == '\t' || c == '\r'
  }

  function SkipBlanks(s: string): string {
    if s != "" && IsBlank(s[0]) then SkipBlanks(s[1..]) else s
  }

  function LeadingDigits(s: string): (d: string)
    ensures d <= s && Digits(d)
  {
    if s != "" && IsDigit(s[0]) then [s[0]] + LeadingDigits(s[1..]) else ""
  }

  datatype Scanned = Scanned(value: nat, rest: string)

  /** `%d` into an unsigned integer below `limit`. */
  function ScanNumber(s: string, limit: nat): Option<Scanned> {
    var t := SkipBlanks(s);
    var d := LeadingDigits(t);
    if d == "" || Value(d) >= limit then None else Some(Scanned(Value(d), t[|d|..]))
  }

  /** A literal followed by a number. */
  function ScanField(s: string, word: string, limit: nat): Option<Scanned> {
    var t := Expect(s, word);
    if t.None? then None else ScanNumber(t.value, limit)
  }

  const UINT32_LIMIT := 0x1_0000_0000
  const UINT8_LIMIT := 256

  datatype Params = Params(memory: nat, time: nat, threads: nat)

  predicate InRange(p: Params) {
    p.memory < UINT32_LIMIT && p.time < UINT32_LIMIT && p.threads < UINT8_LIMIT
  }

  /** The three numbers of `m=%d,t=%d,p=%d`; input after the third is not looked at. */
  function ScanParams(s: string, words: seq<string>): Option<Params>
    requires |words| == 3
  {
    var m := ScanField(s, words[0], UINT32_LIMIT);
    if m.None? then None
    else
      var t := ScanField(m.value.rest, words[1], UINT32_LIMIT);
      if t.None? then None
      else
        var p := ScanField(t.value.rest, words[2], UINT8_LIMIT);
        if p.None? then None else Some(Params(m.value.value, t.value.value, p.value.value))
  }

  function PrintParams(p: Params, words: seq<string>): string
    requires |words| == 3
  {
    words[0] + Show(p.memory) + (words[1] + Show(p.time) + (words[2] + Show(p.threads)))
  }

  predicate StartsOtherwise(s: string) {
    s == "" || !IsDigit(s[0])
  }

  lemma {:induction false} DigitsLead(d: string, rest: string)
    requires Digits(d) && StartsOtherwise(rest)
    ensures LeadingDigits(d + rest) == d
  {
    if d == "" {
      assert d + rest == rest;
    } else {
      DigitsLead(d[1..], rest);
      assert (d + rest)[1..] == d[1..] + rest;
      assert d == [d[0]] + d[1..];
    }
  }

  lemma FieldReadsBack(word: string, n: nat, rest: string, limit: nat)
    requires StartsOtherwise(rest)
    ensures ScanField(word + Show(n) + rest, word, limit) == if n < limit then Some(Scanned(n, rest)) else None
  {
    hide Value, Show;
    ShowReadsBack(n);
    DigitsLead(Show(n), rest);
    var s := word + Show(n) + rest;
    var t := Show(n) + rest;
    assert s == word + t;
    assert Expect(s, word) == Some(t) by { assert s[|word|..] == t; }
    assert IsDigit(t[0]);
    assert SkipBlanks(t) == t;
    assert t[|Show(n)|..] == rest;
  }

  /** The numbers are read back, unless one of them is too large for its type. */
  lemma ParamsReadBack(p: Params, words: seq<string>)
    requires |words| == 3
    requires forall i :: 0 <= i < 3 ==> words[i] != "" && !IsDigit(words[i][0])
    ensures ScanParams(PrintParams(p, words), words) ==
            if p.memory < 4_294_967_296 && p.time < 4_294_967_296 && p.threads < 256 then Some(p) else None
  {
    hide ScanField, Show;
    var third := words[2] + Show(p.threads);
    var second := words[1] + Show(p.time) + third;
    FieldReadsBack(words[0], p.memory, second, UINT32_LIMIT);
    FieldReadsBack(words[1], p.time, third, UINT32_LIMIT);
    FieldReadsBack(words[2], p.threads, "", UINT8_LIMIT);
    assert words[2] + Show(p.threads) + "" == third;
  }

  // ---------------------------------------------------------------------------------------------------------------
  // The record
  // ---------------------------------------------------------------------------------------------------------------

  datatype Record = Record(params: Params, salt: seq<byte>, key: seq<byte>)

  /** The literals of the format: the name of the scheme, its version, and what precedes each parameter. */
  datatype Format = Format(scheme: string, version: string, words: seq<string>)

  const ARGON2ID := Format("argon2id", "v=19", ["m=", ",t=", ",p="])

  predicate WellFormed(f: Format) {
    '$' !in f.scheme && '$' !in f.version && |f.words| == 3 &&
    forall i :: 0 <= i < 3 ==> f.words[i] != "" && !IsDigit(f.words[i][0]) && '$' !in f.words[i]
  }

  function Print(r: Record, f: Format): string
    requires |f.words| == 3
  {
    Join([f.scheme, f.version, PrintParams(r.params, f.words), Encode(r.salt), Encode(r.key)], '$')
  }

  /** The version field is not looked at. */
  function Parse(s: string, f: Format): Option<Record>
    requires |f.words| == 3
  {
    var parts := Split(s, '$');
    if |parts| != 5 || parts[0] != f.scheme then None
    else
      var params := ScanParams(parts[2], f.words);
      var salt, key := Decode(parts[3]), Decode(parts[4]);
      if params.None? || salt.None? || key.None? then None else Some(Record(params.value, salt.value, key.value))
  }

  lemma {:induction false} ShowHasNo(n: nat, c: char)
    requires !IsDigit(c)
    ensures c !in Show(n)
  {
    ShowReadsBack(n);
  }

  /** Parsing a printed record recovers its parameters, salt and key, whatever they are. */
  lemma RecordRoundTrip(r: Record, f: Format)
    requires WellFormed(f) && InRange(r.params)
    ensures Parse(Print(r, f), f) == Some(r)
  {
    hide Split, Join, Encode, Decode, ScanParams, Show;
    var p := r.params;
    ShowHasNo(p.memory, '$');
    ShowHasNo(p.time, '$');
    ShowHasNo(p.threads, '$');
    Base64RoundTrip(r.salt);
    Base64RoundTrip(r.key);
    ParamsReadBack(p, f.words);
    assert '$' !in PrintParams(p, f.words);
    SplitInvertsJoin([f.scheme, f.version, PrintParams(p, f.words), Encode(r.salt), Encode(r.key)], '$');
  }

  lemma Argon2idWellFormed()
    ensures WellFormed(ARGON2ID)
  {
  }

  // ---------------------------------------------------------------------------------------------------------------
  // Hashing and verifying
  // ---------------------------------------------------------------------------------------------------------------

  const ARGON2_TIME := 3
  const ARGON2_MEMORY := 65_536
  const ARGON2_THREADS := 4
  const ARGON2_KEY_LEN := 32

  /** The key derivation: password, salt, parameters and the length of the key it gives. */
  type Kdf = (string, seq<byte>, Params, nat) -> seq<byte>

  ghost predicate GivesLength(kdf: Kdf) {
    forall password, salt, p, n :: |kdf(password, salt, p, n)| == n
  }

  function HashPassword(password: string, salt: seq<byte>, kdf: Kdf): string {
    var p := Params(ARGON2_MEMORY, ARGON2_TIME, ARGON2_THREADS);
    Print(Record(p, salt, kdf(password, salt, p, ARGON2_KEY_LEN)), ARGON2ID)
  }

  /** `Panics`: the key derivation refuses to run with no pass or no thread. */
  datatype Verdict = Malformed | Panics | Checked(same: bool)

  function VerifyPassword(password: string, encoded: string, kdf: Kdf): Verdict {
    var r := Parse(encoded, ARGON2ID);
    if r.None? then Malformed
    else if r.value.params.time < 1 || r.value.params.threads < 1 then Panics
    else Checked(kdf(password, r.value.salt, r.value.params, |r.value.key|) == r.value.key)
  }

  /** The text of a record, written out. */
  lemma PrintIs(r: Record, version: string)
    ensures Print(r, ARGON2ID.(version := version)) ==
            "argon2id" + "$" + version + "$" +
            ("m=" + Show(r.params.memory) + ",t=" + Show(r.params.time) + ",p=" + Show(r.params.threads)) +
            "$" + Encode(r.salt) + "$" + Encode(r.key)
  {
    hide Show, Encode, Join;
    var p := PrintParams(r.params, ARGON2ID.words);
    assert p == "m=" + Show(r.params.memory) + ",t=" + Show(r.params.time) + ",p=" + Show(r.params.threads);
    JoinFive("argon2id", version, p, Encode(r.salt), Encode(r.key), '$');
  }

  lemma Costs()
    ensures Show(65_536) == "65536" && Show(3) == "3" && Show(4) == "4"
  {
    assert Show(6) == "6" && Show(65) == "65" && Show(655) == "655" && Show(6_553) == "6553";
  }

  lemma StoredIs(salt: seq<byte>, key: seq<byte>)
    ensures Print(Record(Params(memory := 65_536, time := 3, threads := 4), salt, key), ARGON2ID) ==
            "argon2id$v=19$m=65536,t=3,p=4$" + Encode(salt) + "$" + Encode(key)
  {
    hide Show, Encode, Print;
    PrintIs(Record(Params(memory := 65_536, time := 3, threads := 4), salt, key), "v=19");
    Costs();
    assert "argon2id" + "$" + "v=19" + "$" + ("m=" + "65536" + ",t=" + "3" + ",p=" + "4") + "$" ==
           "argon2id$v=19$m=65536,t=3,p=4$";
  }

  /** What is stored: the literal costs, and salt and key in base64. */
  lemma HashPasswordIs(password: string, salt: seq<byte>, kdf: Kdf)
    ensures HashPassword(password, salt, kdf) ==
            "argon2id$v=19$m=65536,t=3,p=4$" + Encode(salt) + "$" +
            Encode(kdf(password, salt, Params(memory := 65_536, time := 3, threads := 4), 32))
  {
    hide Encode, Print;
    StoredIs(salt, kdf(password, salt, Params(memory := 65_536, time := 3, threads := 4), 32));
  }

  /** A text so stored, with any salt and key, is checked by deriving a key of that length under that salt. */
  lemma VerifyStored(password: string, salt: seq<byte>, key: seq<byte>, kdf: Kdf)
    ensures VerifyPassword(password, "argon2id$v=19$m=65536,t=3,p=4$" + Encode(salt) + "$" + Encode(key), kdf) ==
            Checked(kdf(password, salt, Params(memory := 65_536, time := 3, threads := 4), |key|) == key)
  {
    hide Encode, Print, Parse;
    StoredIs(salt, key);
    Argon2idWellFormed();
    RecordRoundTrip(Record(Params(memory := 65_536, time := 3, threads := 4), salt, key), ARGON2ID);
  }

  /** A stored text with any costs, salt and key is checked against them, whatever its version. */
  lemma VerifyReads(password: string, version: string, p: Params, salt: seq<byte>, key: seq<byte>, kdf: Kdf)
    requires '$' !in version && InRange(p)
    ensures VerifyPassword(password,
                           "argon2id" + "$" + version + "$" +
                           ("m=" + Show(p.memory) + ",t=" + Show(p.time) + ",p=" + Show(p.threads)) +
                           "$" + Encode(salt) + "$" + Encode(key), kdf) ==
            if p.time == 0 || p.threads == 0 then Panics else Checked(kdf(password, salt, p, |key|) == key)
  {
    hide Show, Encode, Print, Parse;
    var f := ARGON2ID.(version := version);
    Argon2idWellFormed();
    PrintIs(Record(p, salt, key), version);
    RecordRoundTrip(Record(p, salt, key), f);
    VersionIgnored(Print(Record(p, salt, key), f), version);
  }

  lemma VersionIgnored(s: string, version: string)
    ensures Parse(s, ARGON2ID.(version := version)) == Parse(s, ARGON2ID)
  {
  }

  /** The text consists of five fields, the first of which names the scheme. */
  ghost predicate HasFields(s: string, version: string, params: string, salt: string, key: string) {
    && s == "argon2id" + "$" + version + "$" + params + "$" + salt + "$" + key
    && '$' !in version && '$' !in params && '$' !in salt && '$' !in key
  }

  ghost predicate Readable(params: string, salt: string, key: string) {
    ScanParams(params, ["m=", ",t=", ",p="]).Some? && Decode(salt).Some? && Decode(key).Some?
  }

  lemma FieldsAre(s: string, version: string, params: string, salt: string, key: string)
    ensures HasFields(s, version, params, salt, key) <==>
            Split(s, '$') == ["argon2id", version, params, salt, key]
  {
    hide Split, Join;
    var parts := ["argon2id", version, params, salt, key];
    JoinFive("argon2id", version, params, salt, key, '$');
    if HasFields(s, version, params, salt, key) {
      SplitInvertsJoin(parts, '$');
    }
    if Split(s, '$') == parts {
      JoinInvertsSplit(s, '$');
      assert '$' !in parts[1] && '$' !in parts[2] && '$' !in parts[3] && '$' !in parts[4];
    }
  }

  /**
    * A text is refused unless it has five readable fields of the right scheme; one that has them is accepted exactly if
    * the key derived from the password with its costs and its salt is its key.
    */
  lemma VerifyIff(password: string, encoded: string, kdf: Kdf)
    ensures VerifyPassword(password, encoded, kdf) != Malformed <==>
            exists version, params, salt, key ::
              HasFields(encoded, version, params, salt, key) && Readable(params, salt, key)
    ensures forall version, params, salt, key ::
              HasFields(encoded, version, params, salt, key) && Readable(params, salt, key) ==>
                var p := ScanParams(params, ["m=", ",t=", ",p="]).value;
                VerifyPassword(password, encoded, kdf) ==
                if p.time == 0 || p.threads == 0 then Panics
                else Checked(kdf(password, Decode(salt).value, p, |Decode(key).value|) == Decode(key).value)
  {
    hide HasFields, Split, ScanParams, Decode;
    forall version, params, salt, key
      ensures HasFields(encoded, version, params, salt, key) <==>
              Split(encoded, '$') == ["argon2id", version, params, salt, key]
    {
      FieldsAre(encoded, version, params, salt, key);
    }
    var parts := Split(encoded, '$');
    if VerifyPassword(password, encoded, kdf) != Malformed {
      assert parts == ["argon2id", parts[1], parts[2], parts[3], parts[4]];
      assert HasFields(encoded, parts[1], parts[2], parts[3], parts[4]) && Readable(parts[2], parts[3], parts[4]);
    }
  }

  /**
    * Checking a password against a stored one compares the two derived keys under the stored salt, so the same password
    * is always accepted, and another one exactly when its key is the same.
    */
  lemma VerifyInvertsHash(password: string, other: string, salt: seq<byte>, kdf: Kdf)
    requires GivesLength(kdf)
    ensures VerifyPassword(password, HashPassword(password, salt, kdf), kdf) == Checked(true)
    ensures var p := Params(ARGON2_MEMORY, ARGON2_TIME, ARGON2_THREADS);
            VerifyPassword(other, HashPassword(password, salt, kdf), kdf) ==
            Checked(kdf(other, salt, p, ARGON2_KEY_LEN) == kdf(password, salt, p, ARGON2_KEY_LEN))
  {
    hide Print, Parse;
    var p := Params(ARGON2_MEMORY, ARGON2_TIME, ARGON2_THREADS);
    Argon2idWellFormed();
    RecordRoundTrip(Record(p, salt, kdf(password, salt, p, ARGON2_KEY_LEN)), ARGON2ID);
  }
}
