/**
  The score field's wire codec: a 32-bit signed score travels as the JSON
  string `"<N> points"`.
 */
module ScoreCodec {
  import opened Wrappers
  import opened Decimal

  newtype Score = x: int | MinInt32 <= x <= MaxInt32

  /** `ErrInvalidRuntimeFormat`, the only error the decoder reports. */
  datatype CodecError = ErrInvalidRuntimeFormat

  const Unit: string := "points"

  /** Printable ASCII, the characters `Quote` is modelled for. */
  predicate Printable(c: char) { ' ' <= c <= '~' }

  function Escape(s: string): (e: string)
    requires forall c :: c in s ==> Printable(c)
    ensures |e| >= |s|
  {
    if s == [] then []
    else (if s[0] == '"' || s[0] == '\\' then ['\\', s[0]] else [s[0]]) + Escape(s[1..])
  }

  /** `strconv.Quote` on printable ASCII text: backslash before `"` and `\`. */
  function Quote(s: string): (q: string)
    requires forall c :: c in s ==> Printable(c)
    ensures |q| >= |s| + 2 && q[0] == '"' && q[|q| - 1] == '"'
  {
    "\"" + Escape(s) + "\""
  }

  function RemoveCarriageReturns(s: string): (r: string)
    ensures '\r' !in r && |r| <= |s|
  {
    if s == [] then [] else (if s[0] == '\r' then [] else [s[0]]) + RemoveCarriageReturns(s[1..])
  }

  /**
    `strconv.Unquote` on the literal forms that can decode to a score: a
    double-quoted literal with no escape sequence (newlines are refused), and
    a back-quoted raw literal (carriage returns are dropped). The literal must
    end at the first closing quote: nothing may follow it.
   */
  function Unquote(s: string): (r: Option<string>)
    ensures r.Some? ==> |s| >= 2 && s[0] == s[|s| - 1] && (s[0] == '"' || s[0] == '`')
    ensures r.Some? && s[0] == '"' ==> r.value == s[1..|s| - 1] && '\\' !in r.value && '"' !in r.value
    ensures r.Some? ==> |r.value| <= |s| - 2
  {
    if |s| < 2 || s[0] != s[|s| - 1] then None
    else
      var body := s[1..|s| - 1];
      if s[0] == '"' && '"' !in body && '\\' !in body && '\n' !in body then Some(body)
      else if s[0] == '`' && '`' !in body then Some(RemoveCarriageReturns(body))
      else None
  }

  /** `strings.Split(s, string(sep))`: one more part than there are separators. */
  function Split(s: string, sep: char): (parts: seq<string>)
    ensures |parts| >= 1
  {
    if s == [] then [""]
    else
      var rest := Split(s[1..], sep);
      if s[0] == sep then [""] + rest else [[s[0]] + rest[0]] + rest[1..]
  }

  /** `strings.Join(parts, string(sep))`. */
  function Join(parts: seq<string>, sep: char): string
    requires |parts| >= 1
  {
    if |parts| == 1 then parts[0] else parts[0] + [sep] + Join(parts[1..], sep)
  }

  /** `MarshalJSON`: the score printed in decimal, the unit, then quoted. */
  function MarshalJSON(r: Score): (json: string)
    ensures json == "\"" + (Format(r as int) + " points") + "\""
  {
    QuoteWireText(Format(r as int), r as int);
    Quote(Format(r as int) + " points")
  }

  /** The value `UnmarshalJSON` stores, or the error it returns. */
  function Decode(json: string): (r: Result<Score, CodecError>)
    ensures Unquote(json).None? ==> r == Err(ErrInvalidRuntimeFormat)
    ensures r.Ok? ==> Unquote(json).Some? && |Unquote(json).value| >= 8
  {
    match Unquote(json)
    case None => Err(ErrInvalidRuntimeFormat)
    case Some(text) => DecodeText(text)
  }

  /** The unquoted text: a number, one space and the unit. */
  function DecodeText(text: string): (r: Result<Score, CodecError>)
    ensures r.Ok? ==> |text| >= 8
  {
    var parts := Split(text, ' ');
    if |parts| != 2 || parts[1] != Unit then Err(ErrInvalidRuntimeFormat)
    else
      SplitTwo(text, ' ');
      match ParseInt32(parts[0])
      case None => Err(ErrInvalidRuntimeFormat)
      case Some(i) => Ok(i as Score)
  }

  /** The receiver of `UnmarshalJSON`: the score variable it writes through. */
  class ScoreVar {
    var value: Score

    constructor (initial: Score)
      ensures value == initial
    {
      value := initial;
    }

    /** Writes `value` on the one success path and leaves it alone on every failure. */
    method UnmarshalJSON(json: string) returns (err: Option<CodecError>)
      modifies this
      ensures Decode(json).Ok? ==> err == None && value == Decode(json).value
      ensures Decode(json).Err? ==> err == Some(ErrInvalidRuntimeFormat) && value == old(value)
    {
      var unquoted := Unquote(json);
      if unquoted.None? {
        return Some(ErrInvalidRuntimeFormat);
      }
      var parts := Split(unquoted.value, ' ');
      if |parts| != 2 || parts[1] != Unit {
        return Some(ErrInvalidRuntimeFormat);
      }
      var i := ParseInt32(parts[0]);
      if i.None? {
        return Some(ErrInvalidRuntimeFormat);
      }
      value := i.value as Score;
      return None;
    }
  }

  // ---- Quoting ----

  /** Text that needs no escaping is quoted by adding the two quotes only. */
  lemma {:induction false} EscapePlain(s: string)
    requires Plain(s)
    ensures Escape(s) == s
  {
    if s != [] {
      assert s[0] in s;
      assert forall c :: c in s[1..] ==> c in s;
      EscapePlain(s[1..]);
      assert s == [s[0]] + s[1..];
    }
  }

  /** Text that `Quote` leaves alone and `Unquote` passes through. */
  predicate Plain(s: string) {
    forall c :: c in s ==> Printable(c) && c != '"' && c != '\\'
  }

  /** A double-quoted literal with nothing to unescape unquotes to its body. */
  lemma UnquotePlain(body: string)
    requires Plain(body)
    ensures Unquote("\"" + body + "\"") == Some(body)
  {
    var q := "\"" + body + "\"";
    assert q[1..|q| - 1] == body;
  }

  /** Unquoting undoes quoting for text with nothing to escape. */
  lemma UnquoteQuote(s: string)
    requires Plain(s)
    ensures Unquote(Quote(s)) == Some(s)
  {
    EscapePlain(s);
    UnquotePlain(s);
  }

  /** The printed number followed by the unit needs no escaping. */
  lemma PlainWireText(number: string)
    requires forall c :: c in number ==> IsDigit(c) || c == '-'
    ensures Plain(number + " points")
  {
    assert forall c :: c in " points" ==> Printable(c) && c != '"' && c != '\\';
  }

  /** Quoting the printed number and the unit only adds the two double quotes. */
  lemma QuoteWireText(number: string, x: int)
    requires number == Format(x)
    ensures Quote(number + " points") == "\"" + (number + " points") + "\""
  {
    FormatShape(x);
    PlainWireText(number);
    EscapePlain(number + " points");
  }

  // ---- Splitting ----

  lemma {:induction false} SplitWithout(s: string, sep: char)
    requires sep !in s
    ensures Split(s, sep) == [s]
  {
    if s != [] {
      assert forall c :: c in s[1..] ==> c in s;
      SplitWithout(s[1..], sep);
      assert s == [s[0]] + s[1..];
    }
  }

  /** Everything up to the first separator is the first part. */
  lemma {:induction false} SplitAtFirst(p: string, sep: char, q: string)
    requires sep !in p
    ensures Split(p + [sep] + q, sep) == [p] + Split(q, sep)
  {
    var s := p + [sep] + q;
    if p == [] {
      assert s[1..] == q;
    } else {
      assert s[1..] == p[1..] + [sep] + q;
      assert forall c :: c in p[1..] ==> c in p;
      SplitAtFirst(p[1..], sep, q);
      assert [p[0]] + p[1..] == p;
    }
  }

  /** No part holds the separator, and joining the parts gives the text back. */
  lemma {:induction false} SplitJoin(s: string, sep: char)
    ensures forall i :: 0 <= i < |Split(s, sep)| ==> sep !in Split(s, sep)[i]
    ensures Join(Split(s, sep), sep) == s
  {
    if s != [] {
      var rest := Split(s[1..], sep);
      SplitJoin(s[1..], sep);
      if s[0] == sep {
        assert Split(s, sep)[1..] == rest;
        assert s == [sep] + s[1..];
      } else {
        var parts := Split(s, sep);
        assert parts[0] == [s[0]] + rest[0];
        assert parts[1..] == rest[1..];
        forall i | 0 <= i < |parts| ensures sep !in parts[i] {
          if i > 0 { assert parts[i] == rest[i]; }
        }
        if |rest| > 1 {
          assert Join(parts, sep) == [s[0]] + (rest[0] + [sep] + Join(rest[1..], sep));
        }
        assert s == [s[0]] + s[1..];
      }
    }
  }

  /** A space-free number followed by ` points` splits into the number and the unit. */
  lemma SplitNumberUnit(number: string)
    requires ' ' !in number
    ensures Split(number + " points", ' ') == [number, Unit]
  {
    var text := number + [' '] + Unit;
    assert number + " points" == text;
    assert Split(text, ' ') == [number] + Split(Unit, ' ') by {
      SplitAtFirst(number, ' ', Unit);
    }
    assert Split(Unit, ' ') == [Unit] by {
      SplitWithout(Unit, ' ');
    }
  }

  /** Exactly two parts: one separator, the text being "first part, separator, second part". */
  lemma SplitTwo(s: string, sep: char)
    requires |Split(s, sep)| == 2
    ensures s == Split(s, sep)[0] + [sep] + Split(s, sep)[1]
    ensures sep !in Split(s, sep)[0] && sep !in Split(s, sep)[1]
  {
    SplitJoin(s, sep);
    var parts := Split(s, sep);
    assert parts[1..] == [parts[1]];
  }

  // ---- Decoding ----

  /** Decoding the encoding of any score gives the score back, zero and negatives included. */
  lemma DecodeMarshal(x: Score)
    ensures Decode(MarshalJSON(x)) == Ok(x)
  {
    var number := Format(x as int);
    var json := MarshalJSON(x);
    FormatShape(x as int);
    assert Unquote(json) == Some(number + " points") by {
      PlainWireText(number);
      UnquotePlain(number + " points");
    }
    assert ParseInt32(number) == Some(x as int) by {
      ParseFormat(x as int);
    }
    DecodeAccepts(json, number);
  }

  /** The round trip, for every score at once. */
  lemma DecodeEveryMarshal()
    ensures forall x: Score :: Decode(MarshalJSON(x)) == Ok(x)
  {
    forall x: Score ensures Decode(MarshalJSON(x)) == Ok(x) {
      DecodeMarshal(x);
    }
  }

  /**
    Every accepted input: the unquoted text is a space-free number part,
    one space and `points`, and the number part parses to the result.
   */
  lemma DecodeAccepted(json: string)
    requires Decode(json).Ok?
    ensures Unquote(json).Some?
    ensures var text := Unquote(json).value;
      && |text| >= 7
      && text == text[..|text| - 7] + " points"
      && text[|text| - 7..] == " points"
      && ' ' !in text[..|text| - 7]
      && ParseInt32(text[..|text| - 7]) == Some(Decode(json).value as int)
  {
    var text := Unquote(json).value;
    var parts := Split(text, ' ');
    assert |parts| == 2 && parts[1] == Unit;
    SplitTwo(text, ' ');
    assert text == parts[0] + " points";
    assert text[..|text| - 7] == parts[0];
    assert text[|text| - 7..] == " points";
  }

  /** ...and every such input is accepted. */
  lemma DecodeAccepts(json: string, number: string)
    requires Unquote(json) == Some(number + " points")
    requires ' ' !in number
    requires ParseInt32(number).Some?
    ensures Decode(json) == Ok(ParseInt32(number).value as Score)
  {
    SplitNumberUnit(number);
  }

  /** Input that does not unquote to `<space-free number> points` is rejected. */
  lemma DecodeRejects(json: string)
    requires Unquote(json).None? || (
      var text := Unquote(json).value;
      || |text| < 7
      || text[|text| - 7..] != " points"
      || ' ' in text[..|text| - 7]
      || ParseInt32(text[..|text| - 7]).None?)
    ensures Decode(json) == Err(ErrInvalidRuntimeFormat)
  {
    if Decode(json).Ok? {
      DecodeAccepted(json);
      assert false;
    }
  }

  /** A double-quoted body that is not `<space-free number> points` is rejected. */
  lemma RejectsBody(body: string)
    requires Plain(body) && '\n' !in body
    requires
      || |body| < 7
      || body[|body| - 7..] != " points"
      || ' ' in body[..|body| - 7]
      || ParseInt32(body[..|body| - 7]).None?
    ensures Decode("\"" + body + "\"") == Err(ErrInvalidRuntimeFormat)
  {
    UnquotePlain(body);
    DecodeRejects("\"" + body + "\"");
  }

  lemma RejectsWrongUnit()
    ensures Decode("\"7 seconds\"") == Err(ErrInvalidRuntimeFormat)
  {
    assert "\"7 seconds\"" == "\"" + "7 seconds" + "\"";
    RejectsBody("7 seconds");
  }

  lemma RejectsDoubleSpace()
    ensures Decode("\"5  points\"") == Err(ErrInvalidRuntimeFormat)
  {
    assert "\"5  points\"" == "\"" + "5  points" + "\"";
    assert "5  points"[..2] == "5 ";
    RejectsBody("5  points");
  }

  lemma RejectsTrailingWord()
    ensures Decode("\"5 points now\"") == Err(ErrInvalidRuntimeFormat)
  {
    assert "\"5 points now\"" == "\"" + "5 points now" + "\"";
    RejectsBody("5 points now");
  }

  lemma RejectsNonNumber()
    ensures Decode("\"abc points\"") == Err(ErrInvalidRuntimeFormat)
  {
    assert "\"abc points\"" == "\"" + "abc points" + "\"";
    assert "abc points"[..3] == "abc";
    RejectsBody("abc points");
  }

  /** A number outside the 32-bit range is rejected, however it is written. */
  lemma RejectsOutOfRange(x: int)
    requires x < MinInt32 || x > MaxInt32
    ensures Decode("\"" + Format(x) + " points\"") == Err(ErrInvalidRuntimeFormat)
  {
    var body := Format(x) + " points";
    FormatShape(x);
    PlainWireText(Format(x));
    ParseOutOfRange(x);
    assert body[..|body| - 7] == Format(x);
    assert "\"" + Format(x) + " points\"" == "\"" + body + "\"";
    RejectsBody(body);
  }

  /** A bare token or a JSON number is not a quoted literal. */
  lemma RejectsUnquoted()
    ensures Decode("5 points") == Err(ErrInvalidRuntimeFormat)
    ensures Decode("12") == Err(ErrInvalidRuntimeFormat)
    ensures Decode("null") == Err(ErrInvalidRuntimeFormat)
  {
  }

  /** A double-quoted `<number> points` with a parsable number is accepted. */
  lemma AcceptsBody(number: string)
    requires forall c :: c in number ==> IsDigit(c) || c == '-' || c == '+'
    requires ParseInt32(number).Some?
    ensures Decode("\"" + number + " points\"") == Ok(ParseInt32(number).value as Score)
  {
    assert forall c :: c in " points" ==> Printable(c) && c != '"' && c != '\\';
    UnquotePlain(number + " points");
    assert "\"" + number + " points\"" == "\"" + (number + " points") + "\"";
    DecodeAccepts("\"" + number + " points\"", number);
  }

  /**
    ParseInt's leniency carries through: a `+` sign in front of any
    non-negative score still decodes to it, from text `MarshalJSON` never writes.
   */
  lemma DecodesPlusSign(x: Score)
    requires x >= 0
    ensures Decode("\"+" + Format(x as int) + " points\"") == Ok(x)
    ensures MarshalJSON(x) != "\"+" + Format(x as int) + " points\""
  {
    var d := Format(x as int);
    assert "\"+" + d + " points\"" == "\"" + ("+" + d) + " points\"";
    DecodesPrefixed("+", x);
  }

  /** Likewise a leading zero. */
  lemma DecodesLeadingZero(x: Score)
    requires x >= 0
    ensures Decode("\"0" + Format(x as int) + " points\"") == Ok(x)
    ensures MarshalJSON(x) != "\"0" + Format(x as int) + " points\""
  {
    var d := Format(x as int);
    assert "\"0" + d + " points\"" == "\"" + ("0" + d) + " points\"";
    DecodesPrefixed("0", x);
  }

  /** The shared step: one extra sign or digit in front of the printed number. */
  lemma DecodesPrefixed(prefix: string, x: Score)
    requires prefix == "+" || prefix == "0"
    requires x >= 0
    ensures Decode("\"" + (prefix + Format(x as int)) + " points\"") == Ok(x)
    ensures MarshalJSON(x) != "\"" + (prefix + Format(x as int)) + " points\""
  {
    var d := Format(x as int);
    var number := prefix + d;
    assert ParseInt32(number) == Some(x as int) by {
      ParseLenient(x as int);
    }
    assert forall k :: k in number ==> IsDigit(k) || k == '-' || k == '+' by {
      FormatShape(x as int);
      assert forall k :: k in number ==> k in prefix || k in d;
    }
    AcceptsBody(number);
    assert |MarshalJSON(x)| == |d| + 9;
  }

  /** The wire text `MarshalJSON` produces: a double-quoted canonical number and ` points`. */
  predicate CanonicalWire(json: string) {
    && |json| >= 9
    && json == "\"" + (json[1..|json| - 8] + " points") + "\""
    && Canonical(json[1..|json| - 8])
  }

  /** Canonical number text needs no escaping and holds no space. */
  lemma PlainCanonical(p: string)
    requires Canonical(p)
    ensures forall c :: c in p ==> IsDigit(c) || c == '-'
    ensures ' ' !in p
  {
    forall c | c in p ensures IsDigit(c) || c == '-' {
      var i :| 0 <= i < |p| && p[i] == c;
      if p[0] == '-' && i > 0 { assert p[i] == p[1..][i - 1]; }
    }
  }

  /** Canonical wire text decodes to a value whose encoding is that text. */
  lemma MarshalDecodedCanonical(json: string)
    requires Decode(json).Ok? && CanonicalWire(json)
    ensures MarshalJSON(Decode(json).value) == json
  {
    var p := json[1..|json| - 8];
    PlainCanonical(p);
    assert Unquote(json) == Some(p + " points") by {
      PlainWireText(p);
      UnquotePlain(p + " points");
    }
    assert ParseInt32(p).Some? by {
      DecodeAccepted(json);
      assert (p + " points")[..|p|] == p;
    }
    DecodeAccepts(json, p);
    FormatParse(p);
  }

  /** What `MarshalJSON` writes is canonical. */
  lemma MarshalCanonical(x: Score)
    ensures CanonicalWire(MarshalJSON(x))
  {
    var m := MarshalJSON(x);
    FormatShape(x as int);
    assert m[1..|m| - 8] == Format(x as int);
  }

  /** Encoding a decoded value restores the input exactly when the input was canonical. */
  lemma MarshalDecoded(json: string)
    requires Decode(json).Ok?
    ensures MarshalJSON(Decode(json).value) == json <==> CanonicalWire(json)
  {
    MarshalCanonical(Decode(json).value);
    if CanonicalWire(json) {
      MarshalDecodedCanonical(json);
    }
  }
}
