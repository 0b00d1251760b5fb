/** Tracking-code ("BTT") validation and the extraction of a candidate code
    from one CSV line. */
module Btt {
  import opened Text

  const MaxBttLength := 50

  /** The character class `[a-zA-Z0-9\-_]`. */
  predicate IsBttChar(c: char) {
    ('a' <= c <= 'z') || ('A' <= c <= 'Z') || ('0' <= c <= '9') || c == '-' || c == '_'
  }

  /** The anchored pattern `^[a-zA-Z0-9\-_]+$`, matched one character at a
      time from the front. */
  function MatchesPattern(s: string): (b: bool)
    ensures b <==> |s| >= 1 && forall i :: 0 <= i < |s| ==> IsBttChar(s[i])
  {
    |s| >= 1 && IsBttChar(s[0]) && (|s| == 1 || MatchesPattern(s[1..]))
  }

  /** `validateBTT(btt)`, in the order the code checks: empty is falsy,
      then the length bound, then the pattern. There is no lower length
      bound beyond non-emptiness. */
  function ValidateBtt(btt: string): (ok: bool)
    ensures ok <==> 1 <= |btt| <= MaxBttLength && forall i :: 0 <= i < |btt| ==> IsBttChar(btt[i])
  {
    if btt == [] then false
    else if |btt| > MaxBttLength then false
    else MatchesPattern(btt)
  }

  /** The first comma-separated field of a line, `line.split(',')[0]`. */
  function FirstField(line: string): (f: string)
    ensures ',' !in f
  {
    Split(line, ',')[0]
  }

  /** The candidate code of an already-trimmed line:
      `line.split(',')[0].trim().replace(/['"]/g, '')`. The result never
      holds a comma or a quote, and every character of it comes from the
      line. */
  function ExtractBtt(line: string): (btt: string)
    ensures |btt| <= |line|
    ensures ',' !in btt && '"' !in btt && '\'' !in btt
    ensures forall c :: c in btt ==> c in line
  {
    var f := FirstField(line);
    var parts := Split(line, ',');
    assert |f| <= |line| && forall c :: c in f ==> c in line by {
      if |parts| > 1 {
        assert Join(parts, ',') == f + [','] + Join(parts[1..], ',');
      }
    }
    var t := Trim(f);
    assert forall c :: c in t ==> c in f by { TrimIsSlice(f); }
    RemoveQuotes(t)
  }

  /** Trimming keeps a contiguous piece of its input. */
  lemma TrimIsSlice(s: string)
    ensures forall c :: c in Trim(s) ==> c in s
  {
    var a := LeadingSpace(s);
    var t := s[a..];
    var b := TrailingSpace(t);
    assert Trim(s) == s[a..a + b];
  }

  /** A code's characters are never whitespace, commas or quotes. */
  lemma BttCharsAreInert(t: string)
    requires ValidateBtt(t)
    ensures !IsJsSpace(t[0]) && !IsJsSpace(t[|t| - 1])
    ensures ',' !in t
    ensures forall i :: 0 <= i < |t| ==> !IsQuote(t[i])
  {
  }

  /** The first field of a line is everything before its first comma. */
  lemma FirstFieldBefore(f: string, rest: string)
    requires ',' !in f
    ensures FirstField(f + "," + rest) == f
    ensures FirstField(f) == f
  {
    SplitCons(f, rest, ',');
    assert f + "," + rest == f + [','] + rest;
    SplitNoSeparator(f, ',');
  }

  /** Whitespace holds no comma. */
  lemma BlankNoComma(w: string)
    requires IsBlank(w)
    ensures ',' !in w
  {
  }

  /** The candidate code of a line whose first field is a cell with
      whitespace around it: the second trim drops that whitespace and the
      quotes go, whether or not more columns follow. */
  lemma ExtractCell(pre: string, cell: string, w: string, rest: string)
    requires IsBlank(pre) && IsBlank(w)
    requires ',' !in cell
    requires cell != [] && !IsJsSpace(cell[0]) && !IsJsSpace(cell[|cell| - 1])
    ensures ExtractBtt(pre + cell + w + "," + rest) == RemoveQuotes(cell)
    ensures ExtractBtt(pre + cell + w) == RemoveQuotes(cell)
  {
    var f := pre + cell + w;
    BlankNoComma(pre);
    BlankNoComma(w);
    assert ',' !in f by {
      assert forall c :: c in f ==> c in pre || c in cell || c in w;
    }
    FirstFieldBefore(f, rest);
    TrimPadded(pre, cell, w);
  }

  /** A line whose first field is blank gives the empty code, which no
      validation accepts. */
  lemma ExtractBlankField(w: string, rest: string)
    requires IsBlank(w)
    ensures ExtractBtt(w + "," + rest) == []
    ensures ExtractBtt(w) == []
  {
    BlankNoComma(w);
    FirstFieldBefore(w, rest);
  }

  /** Quoting a code adds nothing the quote removal keeps. */
  lemma UnquoteCode(t: string)
    requires ValidateBtt(t)
    ensures RemoveQuotes(t) == t
    ensures RemoveQuotes("\"" + t + "\"") == t
  {
    BttCharsAreInert(t);
    RemoveQuotesNone(t);
    assert "\"" + t + "\"" == ['"'] + (t + ['"']);
    RemoveQuotesAppend(['"'], t + ['"']);
    RemoveQuotesAppend(t, ['"']);
    assert RemoveQuotes(['"']) == [];
  }

  /** A valid code, bare or in double quotes, as a first column: no comma,
      no whitespace at either end, and the code once the quotes go. */
  lemma CodeCell(t: string, quoted: bool)
    requires ValidateBtt(t)
    ensures var cell := if quoted then "\"" + t + "\"" else t;
      && ',' !in cell && cell != []
      && !IsJsSpace(cell[0]) && !IsJsSpace(cell[|cell| - 1])
      && RemoveQuotes(cell) == t
  {
    BttCharsAreInert(t);
    UnquoteCode(t);
    if quoted {
      var cell := "\"" + t + "\"";
      assert cell[0] == '"' && cell[|cell| - 1] == '"';
      assert forall c :: c in cell ==> c == '"' || c in t;
    }
  }

  /** A valid code written as the first column, bare or in quotes, is
      extracted unchanged, whatever whitespace comes before the comma and
      whatever follows it. */
  lemma ExtractFirstColumn(t: string, w: string, rest: string, quoted: bool)
    requires ValidateBtt(t) && IsBlank(w)
    ensures var cell := if quoted then "\"" + t + "\"" else t;
      ExtractBtt(cell + w + "," + rest) == t && ExtractBtt(cell) == t
  {
    var cell := if quoted then "\"" + t + "\"" else t;
    CodeCell(t, quoted);
    ExtractCell([], cell, w, rest);
    ExtractCell([], cell, [], rest);
    EmptyPrefix(cell + w + "," + rest);
    EmptyPrefix(cell + []);
    EmptySuffix(cell);
  }
}
