/** The stored JSON bodies: serde_json's pretty layout for a flat struct of string fields,
    with a strict decoder that accepts exactly what the encoder writes. */
module Codec {
  import opened Outcomes

  /** The flat layout's stored body, and the Patient message every handler returns. */
  datatype Patient = Patient(id: string, firstName: string, lastName: string, createdAt: string)

  /** The sharded layout's stored body: the same record without its id. */
  datatype Demographics = Demographics(firstName: string, lastName: string, createdAt: string)

  const PatientFields: seq<string> := ["id", "first_name", "last_name", "created_at"]
  const DemographicsFields: seq<string> := ["first_name", "last_name", "created_at"]

  /** The letter that follows a backslash when c is written escaped inside a JSON string. */
  function EscapeLetter(c: char): Option<char> {
    if c == '"' then Some('"')
    else if c == '\\' then Some('\\')
    else if c == '\n' then Some('n')
    else if c == '\r' then Some('r')
    else if c == '\t' then Some('t')
    else if c == '\U{8}' then Some('b')
    else if c == '\U{C}' then Some('f')
    else None
  }

  /** The character a backslash escape stands for; the inverse of EscapeLetter. */
  function Unescape(letter: char): (r: Option<char>)
    ensures r.Some? ==> EscapeLetter(r.value) == Some(letter)
  {
    if letter == '"' then Some('"')
    else if letter == '\\' then Some('\\')
    else if letter == 'n' then Some('\n')
    else if letter == 'r' then Some('\r')
    else if letter == 't' then Some('\t')
    else if letter == 'b' then Some('\U{8}')
    else if letter == 'f' then Some('\U{C}')
    else None
  }

  /** The hex digit serde_json writes for n: 0 to 9, then lower-case a to f. */
  function HexDigit(n: nat): char
    requires n < 16
  {
    if n < 10 then ('0' as int + n) as char else ('a' as int + n - 10) as char
  }

  /** The value of a lower-case hex digit; the inverse of HexDigit. */
  function HexValue(d: char): (r: Option<nat>)
    ensures r.Some? ==> r.value < 16 && HexDigit(r.value) == d
  {
    if '0' <= d <= '9' then Some(d as int - '0' as int)
    else if 'a' <= d <= 'f' then Some(d as int - 'a' as int + 10)
    else None
  }

  lemma HexValueDigit(n: nat)
    requires n < 16
    ensures HexValue(HexDigit(n)) == Some(n)
  {
  }

  /** A control character, U+0000 to U+001F, that has no short escape. */
  predicate NeedsUnicodeEscape(c: char) {
    c < ' ' && EscapeLetter(c).None?
  }

  /** How serde_json writes such a character: a backslash, u, 00 and two hex digits. */
  function UnicodeEscape(c: char): string
    requires c < ' '
  {
    ['\\', 'u', '0', '0', HexDigit(c as int / 16), HexDigit(c as int % 16)]
  }

  /** The character \u00 followed by hi and lo stands for, when it is one that is written
      that way. */
  function ControlFromHex(hi: char, lo: char): (r: Option<char>)
    ensures r.Some? ==> NeedsUnicodeEscape(r.value) && UnicodeEscape(r.value) == ['\\', 'u', '0', '0', hi, lo]
  {
    match (HexValue(hi), HexValue(lo))
    case (Some(h), Some(l)) =>
      if h < 2 && EscapeLetter((16 * h + l) as char).None? then Some((16 * h + l) as char) else None
    case _ => None
  }

  lemma ControlFromHexEscape(c: char)
    requires NeedsUnicodeEscape(c)
    ensures ControlFromHex(UnicodeEscape(c)[4], UnicodeEscape(c)[5]) == Some(c)
  {
    HexValueDigit(c as int / 16);
    HexValueDigit(c as int % 16);
  }

  /** How one character of a value is written inside a JSON string literal. */
  function EscapeChar(c: char): string {
    match EscapeLetter(c)
    case Some(letter) => ['\\', letter]
    case None => if c < ' ' then UnicodeEscape(c) else [c]
  }

  /** The body of a JSON string literal holding s. */
  function Escape(s: string): string {
    if s == [] then [] else EscapeChar(s[0]) + Escape(s[1..])
  }

  /** Reads the body of a JSON string literal up to its closing quote; returns the value and
      what follows the quote. Only a text of the form Escape(v) + "\"" + rest is accepted. */
  function ParseString(s: string): (r: Option<(string, string)>)
    ensures r.Some? ==> s == Escape(r.value.0) + "\"" + r.value.1
    decreases |s|
  {
    if s == [] then None
    else if s[0] == '"' then Some(([], s[1..]))
    else if s[0] == '\\' && |s| >= 2 && s[1] == 'u' then
      if |s| < 6 || s[2] != '0' || s[3] != '0' || ControlFromHex(s[4], s[5]).None? then None
      else
        match ParseString(s[6..])
        case None => None
        case Some(field) =>
          var c := ControlFromHex(s[4], s[5]).value;
          assert Escape([c] + field.0) == s[..6] + Escape(field.0) by {
            assert ([c] + field.0)[1..] == field.0;
            assert EscapeChar(c) == s[..6];
          }
          Some(([c] + field.0, field.1))
    else if s[0] == '\\' then
      if |s| < 2 || Unescape(s[1]).None? then None
      else
        match ParseString(s[2..])
        case None => None
        case Some(field) =>
          var c := Unescape(s[1]).value;
          assert Escape([c] + field.0) == ['\\', s[1]] + Escape(field.0) by {
            assert ([c] + field.0)[1..] == field.0;
          }
          Some(([c] + field.0, field.1))
    else if EscapeLetter(s[0]).Some? || s[0] < ' ' then None
    else
      match ParseString(s[1..])
      case None => None
      case Some(field) =>
        assert Escape([s[0]] + field.0) == [s[0]] + Escape(field.0) by {
          assert ([s[0]] + field.0)[1..] == field.0;
        }
        Some(([s[0]] + field.0, field.1))
  }

  /** Reading one escaped character in front of a readable tail adds it to the value. */
  lemma ParseEscapedChar(c: char, tail: string)
    requires ParseString(tail).Some?
    ensures ParseString(EscapeChar(c) + tail)
            == Some(([c] + ParseString(tail).value.0, ParseString(tail).value.1))
  {
    if EscapeLetter(c).Some? {
      UnescapeEscapeLetter(c);
      ParseShortEscape(EscapeLetter(c).value, c, tail);
    } else if c < ' ' {
      ParseUnicodeEscape(c, tail);
    } else {
      var s := EscapeChar(c) + tail;
      assert s[1..] == tail;
    }
  }

  /** Unescape undoes EscapeLetter, and no short escape uses the letter u. */
  lemma UnescapeEscapeLetter(c: char)
    requires EscapeLetter(c).Some?
    ensures Unescape(EscapeLetter(c).value) == Some(c) && EscapeLetter(c).value != 'u'
  {
  }

  lemma ParseShortEscape(letter: char, c: char, tail: string)
    requires ParseString(tail).Some? && Unescape(letter) == Some(c) && letter != 'u'
    ensures ParseString(['\\', letter] + tail)
            == Some(([c] + ParseString(tail).value.0, ParseString(tail).value.1))
  {
    var s := ['\\', letter] + tail;
    assert s[0] == '\\' && s[1] == letter && s[2..] == tail;
  }

  lemma ParseUnicodeEscape(c: char, tail: string)
    requires ParseString(tail).Some? && NeedsUnicodeEscape(c)
    ensures ParseString(UnicodeEscape(c) + tail)
            == Some(([c] + ParseString(tail).value.0, ParseString(tail).value.1))
  {
    var s := UnicodeEscape(c) + tail;
    assert s[..6] == UnicodeEscape(c) && s[6..] == tail;
    ControlFromHexEscape(c);
  }

  lemma {:induction false} ParseEscaped(v: string, rest: string)
    ensures ParseString(Escape(v) + "\"" + rest) == Some((v, rest))
    decreases |v|
  {
    var s := Escape(v) + "\"" + rest;
    if v == [] {
      assert s == "\"" + rest;
    } else {
      var c := v[0];
      assert v == [c] + v[1..];
      assert s == EscapeChar(c) + (Escape(v[1..]) + "\"" + rest);
      ParseEscaped(v[1..], rest);
      ParseEscapedChar(c, Escape(v[1..]) + "\"" + rest);
    }
  }

  /** A raw control character inside a string literal is refused, as serde_json refuses it;
      the encoder never writes one. */
  lemma RawControlRefused(c: char, rest: string)
    requires c < ' '
    ensures ParseString([c] + rest) == None
    ensures c !in Escape([c])
  {
  }

  /** U+0001 is written \u0001, as serde_json writes it. */
  lemma EscapeControlExample()
    ensures Escape("\U{1}") == "\\u0001"
  {
    assert Escape("\U{1}") == EscapeChar('\U{1}') + Escape([]);
  }

  /** The text before a field's value: two spaces of indent, the quoted key, a colon and the
      value's opening quote. */
  function FieldLead(key: string): string {
    "  \"" + key + "\": \""
  }

  function Field(key: string, value: string): string {
    FieldLead(key) + Escape(value) + "\""
  }

  /** The fields of a pretty-printed object, one per line, separated by commas. */
  function Fields(keys: seq<string>, values: seq<string>): string
    requires |keys| == |values| > 0
    decreases |keys|
  {
    if |keys| == 1 then Field(keys[0], values[0])
    else Field(keys[0], values[0]) + ",\n" + Fields(keys[1..], values[1..])
  }

  /** serde_json::to_string_pretty of a struct whose fields are the given keys and values. */
  function EncodeObject(keys: seq<string>, values: seq<string>): string
    requires |keys| == |values| > 0
  {
    "{\n" + Fields(keys, values) + "\n}"
  }

  function StripPrefix(prefix: string, s: string): (r: Option<string>)
    ensures r.Some? <==> prefix <= s
    ensures r.Some? ==> s == prefix + r.value
  {
    if prefix <= s then Some(s[|prefix|..]) else None
  }

  /** The pieces ParseFields reads, put back together, are the encoded fields. */
  lemma FieldsJoin(keys: seq<string>, s: string, afterLead: string, value: string, after: string,
                   next: string, more: seq<string>, rest: string)
    requires |keys| > 1 && |more| == |keys| - 1
    requires s == FieldLead(keys[0]) + afterLead
    requires afterLead == Escape(value) + "\"" + after
    requires after == ",\n" + next
    requires next == Fields(keys[1..], more) + rest
    ensures s == Fields(keys, [value] + more) + rest
  {
    var values := [value] + more;
    assert values[0] == value && values[1..] == more;
    var lead, escaped, fields := FieldLead(keys[0]), Escape(value), Fields(keys[1..], more);
    assert Fields(keys, values) == lead + escaped + "\"" + ",\n" + fields;
    Regroup(lead, escaped, "\"", ",\n", fields, rest);
  }

  lemma Regroup(a: string, b: string, c: string, d: string, e: string, f: string)
    ensures a + b + c + d + e + f == a + ((b + c) + (d + (e + f)))
  {
  }

  /** Reads the fields named by keys, in order; returns their values and what follows. */
  function ParseFields(keys: seq<string>, s: string): (r: Option<(seq<string>, string)>)
    requires |keys| > 0
    ensures r.Some? ==> |r.value.0| == |keys| && s == Fields(keys, r.value.0) + r.value.1
    decreases |keys|
  {
    var afterLead :- StripPrefix(FieldLead(keys[0]), s);
    var field :- ParseString(afterLead);
    if |keys| == 1 then
      assert Fields(keys, [field.0]) == Field(keys[0], field.0);
      Some(([field.0], field.1))
    else
      var next :- StripPrefix(",\n", field.1);
      var more :- ParseFields(keys[1..], next);
      FieldsJoin(keys, s, afterLead, field.0, field.1, next, more.0, more.1);
      Some(([field.0] + more.0, more.1))
  }

  /** What follows the first field's value in an encoded field list. */
  function AfterFirst(keys: seq<string>, values: seq<string>, rest: string): string
    requires |keys| == |values| > 0
  {
    if |keys| == 1 then rest else ",\n" + (Fields(keys[1..], values[1..]) + rest)
  }

  lemma FieldsSplit(keys: seq<string>, values: seq<string>, rest: string)
    requires |keys| == |values| > 0
    ensures Fields(keys, values) + rest
            == FieldLead(keys[0]) + (Escape(values[0]) + "\"" + AfterFirst(keys, values, rest))
  {
  }

  /** ParseFields on a text that starts with the first key's lead and a readable string. */
  lemma ParseFieldsFirst(keys: seq<string>, s: string, x: string, value: string, after: string)
    requires |keys| > 0
    requires s == FieldLead(keys[0]) + x
    requires ParseString(x) == Some((value, after))
    ensures |keys| == 1 ==> ParseFields(keys, s) == Some(([value], after))
    ensures |keys| > 1 && ",\n" <= after && ParseFields(keys[1..], after[2..]).Some? ==>
              var more := ParseFields(keys[1..], after[2..]).value;
              ParseFields(keys, s) == Some(([value] + more.0, more.1))
  {
    assert StripPrefix(FieldLead(keys[0]), s) == Some(x);
  }

  lemma {:induction false} ParseFieldsEncoded(keys: seq<string>, values: seq<string>, rest: string)
    requires |keys| == |values| > 0
    ensures ParseFields(keys, Fields(keys, values) + rest) == Some((values, rest))
    decreases |keys|
  {
    var s := Fields(keys, values) + rest;
    var tail := AfterFirst(keys, values, rest);
    var x := Escape(values[0]) + "\"" + tail;
    FieldsSplit(keys, values, rest);
    ParseEscaped(values[0], tail);
    ParseFieldsFirst(keys, s, x, values[0], tail);
    if |keys| == 1 {
      assert values == [values[0]];
    } else {
      var next := Fields(keys[1..], values[1..]) + rest;
      assert tail[2..] == next;
      ParseFieldsEncoded(keys[1..], values[1..], rest);
      assert [values[0]] + values[1..] == values;
    }
  }

  /** Reads a pretty-printed object with exactly the given fields, in order. */
  function DecodeObject(keys: seq<string>, s: string): (r: Option<seq<string>>)
    requires |keys| > 0
    ensures r.Some? ==> |r.value| == |keys| && s == EncodeObject(keys, r.value)
  {
    var body :- StripPrefix("{\n", s);
    var fields :- ParseFields(keys, body);
    if fields.1 == "\n}" then Some(fields.0) else None
  }

  lemma DecodeObjectEncoded(keys: seq<string>, values: seq<string>)
    requires |keys| == |values| > 0
    ensures DecodeObject(keys, EncodeObject(keys, values)) == Some(values)
  {
    ParseFieldsEncoded(keys, values, "\n}");
    assert EncodeObject(keys, values) == "{\n" + (Fields(keys, values) + "\n}");
  }

  /** The first letter of the first key sits after the brace, newline, indent and quote. */
  lemma FirstKeyLetter(keys: seq<string>, values: seq<string>)
    requires |keys| == |values| > 0 && keys[0] != []
    ensures |EncodeObject(keys, values)| > 5 && EncodeObject(keys, values)[5] == keys[0][0]
  {
    var fields := Fields(keys, values);
    var lead := FieldLead(keys[0]);
    assert lead == "  \"" + (keys[0] + "\": \"");
    assert lead[3] == keys[0][0];
    assert fields[..|lead|] == lead by {
      var tail := if |keys| == 1 then [] else ",\n" + Fields(keys[1..], values[1..]);
      assert fields == lead + (Escape(values[0]) + "\"" + tail);
    }
    assert fields[3] == keys[0][0];
    assert EncodeObject(keys, values) == "{\n" + (fields + "\n}");
  }

  function Encode(p: Patient): string {
    EncodeObject(PatientFields, [p.id, p.firstName, p.lastName, p.createdAt])
  }

  /** serde_json::from_str::<StoredPatient>: a text that holds a flat record, or None. */
  function Decode(s: string): (r: Option<Patient>)
    ensures r.Some? ==> Encode(r.value) == s
  {
    match DecodeObject(PatientFields, s)
    case None => None
    case Some(v) =>
      var p := Patient(v[0], v[1], v[2], v[3]);
      assert v == [p.id, p.firstName, p.lastName, p.createdAt];
      Some(p)
  }

  function EncodeDemographics(d: Demographics): string {
    EncodeObject(DemographicsFields, [d.firstName, d.lastName, d.createdAt])
  }

  function DecodeDemographics(s: string): (r: Option<Demographics>)
    ensures r.Some? ==> EncodeDemographics(r.value) == s
  {
    match DecodeObject(DemographicsFields, s)
    case None => None
    case Some(v) =>
      var d := Demographics(v[0], v[1], v[2]);
      assert v == [d.firstName, d.lastName, d.createdAt];
      Some(d)
  }

  /** A stored flat record reads back as the record that was written. */
  lemma DecodeEncode(p: Patient)
    ensures Decode(Encode(p)) == Some(p)
  {
    DecodeObjectEncoded(PatientFields, [p.id, p.firstName, p.lastName, p.createdAt]);
  }

  lemma DecodeEncodeDemographics(d: Demographics)
    ensures DecodeDemographics(EncodeDemographics(d)) == Some(d)
  {
    DecodeObjectEncoded(DemographicsFields, [d.firstName, d.lastName, d.createdAt]);
  }

  /** A sharded body has no id field, so the flat decoder rejects it. */
  lemma DemographicsAreNotPatients(d: Demographics)
    ensures Decode(EncodeDemographics(d)) == None
  {
    var text := EncodeDemographics(d);
    if Decode(text).Some? {
      var p := Decode(text).value;
      FirstKeyLetter(PatientFields, [p.id, p.firstName, p.lastName, p.createdAt]);
      FirstKeyLetter(DemographicsFields, [d.firstName, d.lastName, d.createdAt]);
      assert false;
    }
  }
}
