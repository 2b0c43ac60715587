/**
 * `parseCSVLine` of the quote handler: a loose reading of the quoting
 * rule of section 2 of RFC 4180. Inside a quoted field `""` is one literal
 * quote; any other quote toggles quoted mode and is dropped; a comma
 * outside quotes ends a field; every field is trimmed.
 *
 * The reference definition works in two layers: `Lex` reads the quoting
 * and produces separator and character tokens, then the token stream is
 * split at the separators and every piece is trimmed.
 */
module Csv {
  import opened Text

  datatype Token = Sep | Ch(c: char)

  /** The tokens of `line` when the scan starts in (or out of) quoted mode. */
  function Lex(line: string, inQuotes: bool): seq<Token>
    decreases |line|
  {
    if line == [] then []
    else if line[0] == '"' then
      if inQuotes && |line| > 1 && line[1] == '"' then [Ch('"')] + Lex(line[2..], true)
      else Lex(line[1..], !inQuotes)
    else if line[0] == ',' && !inQuotes then [Sep] + Lex(line[1..], false)
    else [Ch(line[0])] + Lex(line[1..], inQuotes)
  }

  /** The characters carried by the character tokens. */
  function TextOf(ts: seq<Token>): string
  {
    if ts == [] then [] else (if ts[0].Ch? then [ts[0].c] else []) + TextOf(ts[1..])
  }

  /** The text of every token run. */
  function TextAll(pieces: seq<seq<Token>>): (r: seq<string>)
    ensures |r| == |pieces|
    ensures forall k :: 0 <= k < |pieces| ==> r[k] == TextOf(pieces[k])
  {
    if pieces == [] then [] else [TextOf(pieces[0])] + TextAll(pieces[1..])
  }

  /** The untrimmed fields of the rest of a line scanned from quoted mode `inQuotes`. */
  function RawFields(line: string, inQuotes: bool): (r: seq<string>)
    ensures |r| == Count(Lex(line, inQuotes), Sep) + 1
  {
    TextAll(Split(Lex(line, inQuotes), Sep))
  }

  /** The fields `parseCSVLine` returns for `line`. */
  function Fields(line: string): (r: seq<string>)
    ensures |r| == Count(Lex(line, false), Sep) + 1
  {
    TrimAll(RawFields(line, false))
  }

  /** Every field comes out trimmed. */
  lemma FieldsTrimmed(line: string)
    ensures forall k :: 0 <= k < |Fields(line)| ==> IsTrimmed(Fields(line)[k])
  {
    var raw, r := RawFields(line, false), Fields(line);
    forall k | 0 <= k < |r|
      ensures IsTrimmed(r[k])
    {
      assert r[k] == Trim(raw[k]);
    }
  }

  /** Prefixes the first field with the text gathered so far. */
  function PrependFirst(current: string, fields: seq<string>): seq<string>
    requires |fields| >= 1
  {
    [current + fields[0]] + fields[1..]
  }

  /** A literal character extends the first raw field. */
  lemma RawFieldsChar(line: string, inQuotes: bool, c: char, next: string, nextQuotes: bool)
    requires Lex(line, inQuotes) == [Ch(c)] + Lex(next, nextQuotes)
    ensures RawFields(line, inQuotes) == PrependFirst([c], RawFields(next, nextQuotes))
  {
    var ts := Lex(next, nextQuotes);
    var all := [Ch(c)] + ts;
    assert all[1..] == ts;
    var sp := Split(ts, Sep);
    assert Split(all, Sep) == [[Ch(c)] + sp[0]] + sp[1..];
    assert ([Ch(c)] + sp[0])[1..] == sp[0];
    assert TextOf([Ch(c)] + sp[0]) == [c] + TextOf(sp[0]);
  }

  /** A separator starts a new, empty raw field. */
  lemma RawFieldsSep(line: string, next: string)
    requires Lex(line, false) == [Sep] + Lex(next, false)
    ensures RawFields(line, false) == [""] + RawFields(next, false)
  {
    var ts := Lex(next, false);
    var all := [Sep] + ts;
    assert all[1..] == ts;
    assert Split(all, Sep) == [[]] + Split(ts, Sep);
    assert TextAll([[]] + Split(ts, Sep)) == [""] + TextAll(Split(ts, Sep));
  }

  /** Prefixing nothing changes nothing. */
  lemma PrependNothing(fields: seq<string>)
    requires |fields| >= 1
    ensures PrependFirst("", fields) == fields
  {
    assert "" + fields[0] == fields[0];
    assert fields == [fields[0]] + fields[1..];
  }

  /**
   * What the scan will return from a state: the fields already closed,
   * then the open field `current` continued by the rest of the line.
   */
  function ScanResult(result: seq<string>, current: string, rest: string, inQuotes: bool): seq<string>
  {
    result + TrimAll(PrependFirst(current, RawFields(rest, inQuotes)))
  }

  /** A literal character joins the open field. */
  lemma {:induction false} ScanChar(result: seq<string>, current: string, rest: string, inQuotes: bool,
                                    c: char, next: string, nextQuotes: bool)
    requires Lex(rest, inQuotes) == [Ch(c)] + Lex(next, nextQuotes)
    ensures ScanResult(result, current, rest, inQuotes) == ScanResult(result, current + [c], next, nextQuotes)
  {
    RawFieldsChar(rest, inQuotes, c, next, nextQuotes);
    var tl := RawFields(next, nextQuotes);
    assert current + ([c] + tl[0]) == (current + [c]) + tl[0];
    assert PrependFirst(current, RawFields(rest, inQuotes)) == PrependFirst(current + [c], tl);
  }

  /** A separator closes the open field. */
  lemma {:induction false} ScanSep(result: seq<string>, current: string, rest: string, next: string)
    requires Lex(rest, false) == [Sep] + Lex(next, false)
    ensures ScanResult(result, current, rest, false) == ScanResult(result + [Trim(current)], "", next, false)
  {
    RawFieldsSep(rest, next);
    var tl := RawFields(next, false);
    calc {
      PrependFirst(current, RawFields(rest, false));
      PrependFirst(current, [""] + tl);
      { assert current + "" == current; assert ([""] + tl)[1..] == tl; }
      [current] + tl;
    }
    PrependNothing(tl);
    calc {
      TrimAll([current] + tl);
      { assert ([current] + tl)[1..] == tl; }
      [Trim(current)] + TrimAll(tl);
    }
    Associative(result, [Trim(current)], TrimAll(tl));
  }

  /** At the end of the line the open field is closed. */
  lemma ScanEnd(result: seq<string>, current: string, inQuotes: bool)
    ensures ScanResult(result, current, "", inQuotes) == result + [Trim(current)]
  {
    assert RawFields("", inQuotes) == [""];
    assert current + "" == current;
    assert PrependFirst(current, [""]) == [current];
  }

  /**
   * The handler's `parseCSVLine`: a character-by-character scan over
   * `(i, current, inQuotes, result)`, proved to produce `Fields(line)`.
   */
  method ParseCsvLine(line: string) returns (result: seq<string>)
    ensures result == Fields(line)
  {
    result := [];
    var current := "";
    var inQuotes := false;
    var i := 0;
    assert line[0..] == line;
    PrependNothing(RawFields(line, false));
    while i < |line|
      invariant 0 <= i <= |line|
      invariant Fields(line) == ScanResult(result, current, line[i..], inQuotes)
      decreases |line| - i
    {
      var rest := line[i..];
      assert rest[0] == line[i] && rest[1..] == line[i + 1..];
      var c := line[i];
      if c == '"' {
        if inQuotes && i + 1 < |line| && line[i + 1] == '"' {
          assert rest[1] == line[i + 1] && rest[2..] == line[i + 2..];
          ScanChar(result, current, rest, true, '"', line[i + 2..], true);
          current := current + "\"";
          i := i + 2;
        } else {
          assert Lex(rest, inQuotes) == Lex(line[i + 1..], !inQuotes);
          inQuotes := !inQuotes;
          i := i + 1;
        }
      } else if c == ',' && !inQuotes {
        ScanSep(result, current, rest, line[i + 1..]);
        result := result + [Trim(current)];
        current := "";
        i := i + 1;
      } else {
        ScanChar(result, current, rest, inQuotes, c, line[i + 1..], inQuotes);
        current := current + [c];
        i := i + 1;
      }
    }
    ScanEnd(result, current, inQuotes);
    result := result + [Trim(current)];
  }

  /** A line without quote characters is plain `split(',')` with every part trimmed. */
  lemma {:induction false} PlainRawFields(line: string)
    requires '"' !in line
    ensures RawFields(line, false) == Split(line, ',')
  {
    if line != [] {
      var c, rest := line[0], line[1..];
      assert line == [c] + rest;
      PlainRawFields(rest);
      var sp := Split(rest, ',');
      if c == ',' {
        RawFieldsSep(line, rest);
      } else {
        RawFieldsChar(line, false, c, rest, false);
      }
    }
  }

  /** Without quotes, every comma separates: `parseCSVLine` agrees with `split(',')` and `trim`. */
  lemma PlainLine(line: string)
    requires '"' !in line
    ensures Fields(line) == TrimAll(Split(line, ','))
    ensures |Fields(line)| == Count(line, ',') + 1
  {
    PlainRawFields(line);
  }

  /** Quoting can only hide commas: no more fields than commas plus one. */
  lemma {:induction false} SeparatorsAreCommas(line: string, inQuotes: bool)
    ensures Count(Lex(line, inQuotes), Sep) <= Count(line, ',')
    decreases |line|
  {
    if line != [] {
      assert line == [line[0]] + line[1..];
      if line[0] == '"' && inQuotes && |line| > 1 && line[1] == '"' {
        SeparatorsAreCommas(line[2..], true);
        assert line[1..] == [line[1]] + line[2..];
        assert [Ch('"')] + Lex(line[2..], true) == Lex(line, inQuotes);
        assert ([Ch('"')] + Lex(line[2..], true))[1..] == Lex(line[2..], true);
      } else if line[0] == '"' {
        SeparatorsAreCommas(line[1..], !inQuotes);
      } else if line[0] == ',' && !inQuotes {
        SeparatorsAreCommas(line[1..], false);
        assert ([Sep] + Lex(line[1..], false))[1..] == Lex(line[1..], false);
      } else {
        SeparatorsAreCommas(line[1..], inQuotes);
        assert ([Ch(line[0])] + Lex(line[1..], inQuotes))[1..] == Lex(line[1..], inQuotes);
      }
    }
  }

  /** Every field count is bounded by the commas of the line. */
  lemma FieldCountBound(line: string)
    ensures 1 <= |Fields(line)| <= Count(line, ',') + 1
  {
    SeparatorsAreCommas(line, false);
  }

  // Writing a row the way section 2 of RFC 4180 describes, as the partner
  // of the parser: any field may be enclosed in quotes, with its inner
  // quotes doubled; a field holding a comma or a quote must be.

  /** Doubles every quote character. */
  function Escape(f: string): string
  {
    if f == [] then [] else (if f[0] == '"' then "\"\"" else [f[0]]) + Escape(f[1..])
  }

  /** Text without quotes needs no escaping. */
  lemma {:induction false} EscapeNoQuotes(f: string)
    requires '"' !in f
    ensures Escape(f) == f
  {
    if f != [] {
      EscapeNoQuotes(f[1..]);
      assert f == [f[0]] + f[1..];
    }
  }

  /** A field as it appears in a CSV line, enclosed in quotes or not. */
  function EncodeField(f: string, quoted: bool): string
  {
    if quoted then "\"" + Escape(f) + "\"" else f
  }

  /** Escaping adds nothing but quote characters. */
  lemma {:induction false} EscapeAvoids(f: string, c: char)
    requires c !in f && c != '"'
    ensures c !in Escape(f)
  {
    if f != [] {
      EscapeAvoids(f[1..], c);
    }
  }

  /** A field may be written without quotes when it holds no quote and no comma. */
  predicate MayGoUnquoted(f: string)
  {
    '"' !in f && ',' !in f
  }

  function EncodeAll(fs: seq<string>, quoted: seq<bool>): (r: seq<string>)
    requires |quoted| == |fs|
    ensures |r| == |fs|
    ensures forall k :: 0 <= k < |fs| ==> r[k] == EncodeField(fs[k], quoted[k])
  {
    if fs == [] then [] else [EncodeField(fs[0], quoted[0])] + EncodeAll(fs[1..], quoted[1..])
  }

  /** A CSV line holding the given fields, separated by commas. */
  function EncodeRow(fs: seq<string>, quoted: seq<bool>): string
    requires |fs| >= 1 && |quoted| == |fs|
  {
    Join(EncodeAll(fs, quoted), ',')
  }

  /** An encoded row of trimmed fields has no white space at either end. */
  lemma EncodedRowIsTrimmed(fs: seq<string>, quoted: seq<bool>)
    requires |fs| >= 1 && |quoted| == |fs|
    requires forall k :: 0 <= k < |fs| ==> IsTrimmed(fs[k])
    ensures IsTrimmed(EncodeRow(fs, quoted))
  {
    var e := EncodeAll(fs, quoted);
    forall k | 0 <= k < |e| ensures IsTrimmed(e[k]) {
      if quoted[k] {
        var q := "\"" + Escape(fs[k]) + "\"";
        assert q[0] == '"' && q[|q| - 1] == '"';
      }
    }
    TrimmedJoin(e, ',');
  }

  /** An encoded row has a line break only where a field does. */
  lemma EncodedRowAvoids(fs: seq<string>, quoted: seq<bool>, c: char)
    requires |fs| >= 1 && |quoted| == |fs|
    requires c != '"' && c != ','
    requires forall k :: 0 <= k < |fs| ==> c !in fs[k]
    ensures c !in EncodeRow(fs, quoted)
  {
    var e := EncodeAll(fs, quoted);
    forall k | 0 <= k < |e| ensures c !in e[k] {
      EscapeAvoids(fs[k], c);
    }
    JoinAvoids(e, ',', c);
  }

  /** The character tokens of a field. */
  function CharTokens(f: string): (r: seq<Token>)
    ensures Sep !in r
    ensures TextOf(r) == f
  {
    if f == [] then [] else
      var r := [Ch(f[0])] + CharTokens(f[1..]);
      assert r[1..] == CharTokens(f[1..]);
      r
  }

  function CharTokensAll(fs: seq<string>): (r: seq<seq<Token>>)
    ensures |r| == |fs|
    ensures forall k :: 0 <= k < |fs| ==> r[k] == CharTokens(fs[k])
  {
    if fs == [] then [] else [CharTokens(fs[0])] + CharTokensAll(fs[1..])
  }

  /** In quoted mode the first escaped character of a field reads back as itself. */
  lemma LexEscapedFirst(f: string, t: string)
    requires f != []
    ensures Lex(Escape(f) + t, true) == [Ch(f[0])] + Lex(Escape(f[1..]) + t, true)
  {
    var tail := Escape(f[1..]) + t;
    if f[0] == '"' {
      var line := "\"\"" + tail;
      assert Escape(f) + t == line;
      assert line[2..] == tail;
    } else {
      var line := [f[0]] + tail;
      assert Escape(f) + t == line;
      assert line[1..] == tail;
    }
  }

  /** In quoted mode an escaped field reads back as its own characters. */
  lemma {:induction false} LexEscaped(f: string, t: string)
    ensures Lex(Escape(f) + t, true) == CharTokens(f) + Lex(t, true)
  {
    if f == [] {
      assert Escape(f) + t == t;
    } else {
      LexEscapedFirst(f, t);
      LexEscaped(f[1..], t);
      Associative([Ch(f[0])], CharTokens(f[1..]), Lex(t, true));
    }
  }

  /** Text without quotes or commas reads back as its own characters in either mode. */
  lemma {:induction false} LexPlain(f: string, t: string, inQuotes: bool)
    requires '"' !in f && ',' !in f
    ensures Lex(f + t, inQuotes) == CharTokens(f) + Lex(t, inQuotes)
  {
    if f == [] {
      assert f + t == t;
    } else {
      var line := f + t;
      assert line[0] == f[0] && line[1..] == f[1..] + t;
      LexPlain(f[1..], t, inQuotes);
      Associative([Ch(f[0])], CharTokens(f[1..]), Lex(t, inQuotes));
    }
  }

  /** An encoded field followed by a comma or the end of the line reads back as its characters. */
  lemma LexEncodedField(f: string, quoted: bool, t: string)
    requires quoted || MayGoUnquoted(f)
    requires t == [] || t[0] == ','
    ensures Lex(EncodeField(f, quoted) + t, false) == CharTokens(f) + Lex(t, false)
  {
    if quoted {
      var closing := "\"" + t;
      LexEscaped(f, closing);
      var line := "\"" + (Escape(f) + closing);
      assert EncodeField(f, quoted) + t == line;
      assert line[1..] == Escape(f) + closing;
      assert Lex(line, false) == Lex(Escape(f) + closing, true);
      assert closing[1..] == t;
      assert Lex(closing, true) == Lex(t, false);
    } else {
      LexPlain(f, t, false);
    }
  }

  /** An encoded row lexes to the fields' characters with a separator between neighbours. */
  lemma {:induction false} LexEncodedRow(fs: seq<string>, quoted: seq<bool>)
    requires |fs| >= 1 && |quoted| == |fs|
    requires forall k :: 0 <= k < |fs| ==> quoted[k] || MayGoUnquoted(fs[k])
    ensures Lex(EncodeRow(fs, quoted), false) == Join(CharTokensAll(fs), Sep)
  {
    if |fs| == 1 {
      LexEncodedField(fs[0], quoted[0], []);
      assert EncodeRow(fs, quoted) == EncodeField(fs[0], quoted[0]) + [];
      assert CharTokens(fs[0]) + Lex([], false) == CharTokens(fs[0]);
    } else {
      var rest := EncodeRow(fs[1..], quoted[1..]);
      assert EncodeAll(fs, quoted)[1..] == EncodeAll(fs[1..], quoted[1..]);
      assert EncodeRow(fs, quoted) == EncodeField(fs[0], quoted[0]) + ([','] + rest);
      LexEncodedField(fs[0], quoted[0], [','] + rest);
      assert ([','] + rest)[1..] == rest;
      assert Lex([','] + rest, false) == [Sep] + Lex(rest, false);
      LexEncodedRow(fs[1..], quoted[1..]);
      assert CharTokensAll(fs)[1..] == CharTokensAll(fs[1..]);
      Associative(CharTokens(fs[0]), [Sep], Lex(rest, false));
    }
  }

  /** The text of each field's tokens is the field. */
  lemma TextOfCharTokens(fs: seq<string>)
    ensures TextAll(CharTokensAll(fs)) == fs
  {
  }

  /**
   * Round trip: a row of trimmed fields written in CSV form parses back to
   * exactly those fields, commas and quotes inside them included.
   */
  lemma ParseEncodedRow(fs: seq<string>, quoted: seq<bool>)
    requires |fs| >= 1 && |quoted| == |fs|
    requires forall k :: 0 <= k < |fs| ==> quoted[k] || MayGoUnquoted(fs[k])
    requires forall k :: 0 <= k < |fs| ==> IsTrimmed(fs[k])
    ensures Fields(EncodeRow(fs, quoted)) == fs
  {
    LexEncodedRow(fs, quoted);
    SplitJoin(CharTokensAll(fs), Sep);
    TextOfCharTokens(fs);
  }

  /**
   * A comma inside a quoted field stays in the field: `1,"Hello, world",extra`
   * parses to `1`, `Hello, world` and `extra`.
   */
  lemma QuotedCommaStays(a: string, b: string, c: string)
    requires MayGoUnquoted(a) && MayGoUnquoted(c) && '"' !in b
    requires IsTrimmed(a) && IsTrimmed(b) && IsTrimmed(c)
    ensures Fields(a + ",\"" + b + "\"," + c) == [a, b, c]
  {
    EncodeQuotedMiddle(a, b, c);
    ParseEncodedRow([a, b, c], [false, true, false]);
  }

  /** `a,"b",c` is the encoding of three fields with the middle one quoted. */
  lemma EncodeQuotedMiddle(a: string, b: string, c: string)
    requires '"' !in b
    ensures EncodeRow([a, b, c], [false, true, false]) == a + ",\"" + b + "\"," + c
  {
    EscapeNoQuotes(b);
    var q := EncodeField(b, true);
    assert EncodeAll([a, b, c], [false, true, false]) == [a, q, c];
    JoinThree(a, q, c, ',');
    assert a + ",\"" + b + "\"," + c == a + [','] + q + [','] + c;
  }

  /**
   * A doubled quote inside a quoted field reads as one literal quote:
   * `2,"She said ""hi"""` parses to `2` and `She said "hi"`.
   */
  lemma DoubledQuoteIsLiteral(a: string, b: string)
    requires MayGoUnquoted(a)
    requires IsTrimmed(a) && IsTrimmed(b)
    ensures Fields(a + ",\"" + Escape(b) + "\"") == [a, b]
  {
    EncodeQuotedLast(a, b);
    ParseEncodedRow([a, b], [false, true]);
  }

  /** `a,"b"` with the quotes of `b` doubled is the encoding of two fields with the second one quoted. */
  lemma EncodeQuotedLast(a: string, b: string)
    ensures EncodeRow([a, b], [false, true]) == a + ",\"" + Escape(b) + "\""
  {
    var q := EncodeField(b, true);
    assert EncodeAll([a, b], [false, true]) == [a, q];
    JoinTwo(a, q, ',');
    assert a + ",\"" + Escape(b) + "\"" == a + [','] + q;
  }
}
