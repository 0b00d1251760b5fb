/** The client's HTML escaper: five global replacements applied in order,
    `&` first, with `'-'` for empty input. */
module Html {
  import opened Text

  const Amp := "&amp;"
  const Lt := "&lt;"
  const Gt := "&gt;"
  const Quot := "&quot;"
  const Apos := "&#039;"

  /** The five global replacements of `escapeHtml`, in the code's order:
      `&` first, so the entities the later steps insert are not escaped
      again. */
  function Chain(s: string): string
  {
    var a := ReplaceAll(s, '&', Amp);
    var b := ReplaceAll(a, '<', Lt);
    var c := ReplaceAll(b, '>', Gt);
    var d := ReplaceAll(c, '"', Quot);
    ReplaceAll(d, '\'', Apos)
  }

  /** `escapeHtml(unsafe)`: a falsy (empty) string becomes `'-'`, anything
      else goes through the replacement chain. */
  function EscapeHtml(unsafe: string): string
  {
    if unsafe == [] then "-" else Chain(unsafe)
  }

  /** The escape of one character, read off the replacement chain. */
  function EscapeChar(c: char): string
  {
    if c == '&' then Amp
    else if c == '<' then Lt
    else if c == '>' then Gt
    else if c == '"' then Quot
    else if c == '\'' then Apos
    else [c]
  }

  /** Character-by-character escaping: the reference the chain is
      compared with. */
  function EscapeChars(s: string): string
  {
    if s == [] then [] else EscapeChar(s[0]) + EscapeChars(s[1..])
  }

  predicate IsHtmlSpecial(c: char) {
    c == '<' || c == '>' || c == '"' || c == '\''
  }

  /** One of the five entities starts at index `i` of `s`. */
  predicate EntityAt(s: string, i: nat)
    requires i <= |s|
  {
    var t := s[i..];
    StartsWith(t, Amp) || StartsWith(t, Lt) || StartsWith(t, Gt)
    || StartsWith(t, Quot) || StartsWith(t, Apos)
  }

  /** Decodes the five entities; every other character stands for itself. */
  function Unescape(s: string): string
    decreases |s|
  {
    if s == [] then []
    else if StartsWith(s, Amp) then "&" + Unescape(s[|Amp|..])
    else if StartsWith(s, Lt) then "<" + Unescape(s[|Lt|..])
    else if StartsWith(s, Gt) then ">" + Unescape(s[|Gt|..])
    else if StartsWith(s, Quot) then "\"" + Unescape(s[|Quot|..])
    else if StartsWith(s, Apos) then "'" + Unescape(s[|Apos|..])
    else [s[0]] + Unescape(s[1..])
  }

  lemma ChainAppend(x: string, y: string)
    ensures Chain(x + y) == Chain(x) + Chain(y)
  {
    ReplaceAllAppend(x, y, '&', Amp);
    var a1, a2 := ReplaceAll(x, '&', Amp), ReplaceAll(y, '&', Amp);
    ReplaceAllAppend(a1, a2, '<', Lt);
    var b1, b2 := ReplaceAll(a1, '<', Lt), ReplaceAll(a2, '<', Lt);
    ReplaceAllAppend(b1, b2, '>', Gt);
    var c1, c2 := ReplaceAll(b1, '>', Gt), ReplaceAll(b2, '>', Gt);
    ReplaceAllAppend(c1, c2, '"', Quot);
    var d1, d2 := ReplaceAll(c1, '"', Quot), ReplaceAll(c2, '"', Quot);
    ReplaceAllAppend(d1, d2, '\'', Apos);
  }

  lemma ReplaceAllOne(c: char, x: char, rep: string)
    ensures ReplaceAll([c], x, rep) == (if c == x then rep else [c])
  {
    assert [c][1..] == [];
  }

  /** A character none of the five steps touches comes through unchanged. */
  lemma ChainPlain(c: char)
    requires c != '&' && c != '<' && c != '>' && c != '"' && c != '\''
    ensures Chain([c]) == [c]
  {
    ReplaceAllAbsent([c], '&', Amp);
    ReplaceAllAbsent([c], '<', Lt);
    ReplaceAllAbsent([c], '>', Gt);
    ReplaceAllAbsent([c], '"', Quot);
    ReplaceAllAbsent([c], '\'', Apos);
  }

  /** The steps after the one that produced `e` find nothing to replace in
      it: an entity holds no `<`, `>`, `"` or `'`. */
  lemma ChainRest(e: string, from: nat)
    requires from <= 4
    requires from <= 1 ==> '<' !in e
    requires from <= 2 ==> '>' !in e
    requires from <= 3 ==> '"' !in e
    requires '\'' !in e
    ensures from <= 1 ==> ReplaceAll(e, '<', Lt) == e
    ensures from <= 2 ==> ReplaceAll(e, '>', Gt) == e
    ensures from <= 3 ==> ReplaceAll(e, '"', Quot) == e
    ensures ReplaceAll(e, '\'', Apos) == e
  {
    if from <= 1 { ReplaceAllAbsent(e, '<', Lt); }
    if from <= 2 { ReplaceAllAbsent(e, '>', Gt); }
    if from <= 3 { ReplaceAllAbsent(e, '"', Quot); }
    ReplaceAllAbsent(e, '\'', Apos);
  }

  /** Each special character is replaced by its own step; every later step
      leaves the entity alone, so it is escaped exactly once. */
  lemma ChainSpecial(c: char)
    requires c == '&' || c == '<' || c == '>' || c == '"' || c == '\''
    ensures Chain([c]) == EscapeChar(c)
  {
    if c == '&' {
      ReplaceAllOne(c, '&', Amp);
      ChainRest(Amp, 1);
    } else if c == '<' {
      ReplaceAllAbsent([c], '&', Amp);
      ReplaceAllOne(c, '<', Lt);
      ChainRest(Lt, 2);
    } else if c == '>' {
      ReplaceAllAbsent([c], '&', Amp);
      ReplaceAllAbsent([c], '<', Lt);
      ReplaceAllOne(c, '>', Gt);
      ChainRest(Gt, 3);
    } else if c == '"' {
      ReplaceAllAbsent([c], '&', Amp);
      ReplaceAllAbsent([c], '<', Lt);
      ReplaceAllAbsent([c], '>', Gt);
      ReplaceAllOne(c, '"', Quot);
      ChainRest(Quot, 4);
    } else {
      ReplaceAllAbsent([c], '&', Amp);
      ReplaceAllAbsent([c], '<', Lt);
      ReplaceAllAbsent([c], '>', Gt);
      ReplaceAllAbsent([c], '"', Quot);
      ReplaceAllOne(c, '\'', Apos);
    }
  }

  /** The code's replacement chain (`&` first) equals escaping each
      character once. */
  lemma {:induction false} ChainIsCharwise(s: string)
    ensures Chain(s) == EscapeChars(s)
    decreases |s|
  {
    if s == [] {
    } else {
      assert s == [s[0]] + s[1..];
      ChainAppend([s[0]], s[1..]);
      if s[0] == '&' || s[0] == '<' || s[0] == '>' || s[0] == '"' || s[0] == '\'' {
        ChainSpecial(s[0]);
      } else {
        ChainPlain(s[0]);
      }
      ChainIsCharwise(s[1..]);
    }
  }

  lemma {:induction false} EscapeCharsSafe(s: string)
    ensures forall i :: 0 <= i < |EscapeChars(s)| ==> !IsHtmlSpecial(EscapeChars(s)[i])
    ensures forall i :: 0 <= i < |EscapeChars(s)| && EscapeChars(s)[i] == '&' ==> EntityAt(EscapeChars(s), i)
    decreases |s|
  {
    if s != [] {
      EscapeCharsSafe(s[1..]);
      var e, t := EscapeChar(s[0]), EscapeChars(s[1..]);
      var out := e + t;
      assert out == EscapeChars(s);
      forall i | 0 <= i < |out| && out[i] == '&'
        ensures EntityAt(out, i)
      {
        if i < |e| {
          assert i == 0;
          assert out[i..][..|e|] == e;
        } else {
          assert out[i..] == t[i - |e|..];
          assert EntityAt(t, i - |e|);
        }
      }
    }
  }

  /** Decoding reads the escape of one character back as that character,
      whatever follows it. */
  lemma UnescapeOne(c: char, t: string)
    ensures Unescape(EscapeChar(c) + t) == [c] + Unescape(t)
  {
    if c == '&' { UnescapeAmp(t); }
    else if c == '<' { UnescapeLt(t); }
    else if c == '>' { UnescapeGt(t); }
    else if c == '"' { UnescapeQuot(t); }
    else if c == '\'' { UnescapeApos(t); }
    else { UnescapePlain(c, t); }
  }

  lemma UnescapeAmp(t: string)
    ensures Unescape(Amp + t) == "&" + Unescape(t)
  {
    assert (Amp + t)[..|Amp|] == Amp && (Amp + t)[|Amp|..] == t;
  }

  lemma UnescapeLt(t: string)
    ensures Unescape(Lt + t) == "<" + Unescape(t)
  {
    var out := Lt + t;
    assert out[1] == 'l';
    assert out[..|Lt|] == Lt && out[|Lt|..] == t;
  }

  lemma UnescapeGt(t: string)
    ensures Unescape(Gt + t) == ">" + Unescape(t)
  {
    var out := Gt + t;
    assert out[1] == 'g';
    assert out[..|Gt|] == Gt && out[|Gt|..] == t;
  }

  lemma UnescapeQuot(t: string)
    ensures Unescape(Quot + t) == "\"" + Unescape(t)
  {
    var out := Quot + t;
    assert out[1] == 'q';
    assert out[..|Quot|] == Quot && out[|Quot|..] == t;
  }

  lemma UnescapeApos(t: string)
    ensures Unescape(Apos + t) == "'" + Unescape(t)
  {
    var out := Apos + t;
    assert out[1] == '#';
    assert out[..|Apos|] == Apos && out[|Apos|..] == t;
  }

  lemma UnescapePlain(c: char, t: string)
    requires c != '&'
    ensures Unescape([c] + t) == [c] + Unescape(t)
  {
    var out := [c] + t;
    assert out[0] == c && out[1..] == t;
    assert !StartsWith(out, Amp) && !StartsWith(out, Lt) && !StartsWith(out, Gt)
      && !StartsWith(out, Quot) && !StartsWith(out, Apos) by {
      assert Amp[0] == Lt[0] == Gt[0] == Quot[0] == Apos[0] == '&';
    }
  }

  /** Escaping then unescaping gives back the original characters. */
  lemma {:induction false} UnescapeEscapeChars(s: string)
    ensures Unescape(EscapeChars(s)) == s
    decreases |s|
  {
    if s != [] {
      UnescapeEscapeChars(s[1..]);
      UnescapeOne(s[0], EscapeChars(s[1..]));
      assert [s[0]] + s[1..] == s;
    }
  }

  /** `escapeHtml` yields `'-'` for empty input; otherwise its output holds
      no `<`, `>`, `"` or `'`, and every `&` in it begins one of the five
      entities (nothing is escaped twice). */
  lemma EscapeHtmlSafe(unsafe: string)
    ensures unsafe == [] ==> EscapeHtml(unsafe) == "-"
    ensures forall i :: 0 <= i < |EscapeHtml(unsafe)| ==> !IsHtmlSpecial(EscapeHtml(unsafe)[i])
    ensures unsafe != [] ==>
      forall i :: 0 <= i < |EscapeHtml(unsafe)| && EscapeHtml(unsafe)[i] == '&' ==> EntityAt(EscapeHtml(unsafe), i)
  {
    if unsafe != [] {
      assert EscapeHtml(unsafe) == Chain(unsafe);
      ChainIsCharwise(unsafe);
      EscapeCharsSafe(unsafe);
    }
  }

  /** For non-empty input the escape is lossless: decoding the five
      entities recovers the input exactly. */
  lemma EscapeHtmlRoundTrip(unsafe: string)
    requires unsafe != []
    ensures Unescape(EscapeHtml(unsafe)) == unsafe
  {
    assert EscapeHtml(unsafe) == Chain(unsafe);
    ChainIsCharwise(unsafe);
    UnescapeEscapeChars(unsafe);
  }
}
