/** Turning the uploaded text into the list of data lines: split on `\n`,
    drop blank lines, drop a header line, enforce the line limits. */
module Ingest {
  import opened Wrappers
  import opened Text

  const MaxLines := 1000

  /** Why a run stops before any lookup is made. */
  datatype RunError =
    /** No non-blank line: reading `lines[0]` fails and the run aborts. */
    | NoLines
    /** 'File CSV kosong atau tidak ada data!' */
    | NoData
    /** 'Terlalu banyak data! Maksimum 1000 baris.' The count of data
        lines is the model's own addition; the message shows only the limit. */
    | TooManyLines(count: nat)

  /** `lines.filter(line => line.trim() !== '')`. */
  function NonBlank(lines: seq<string>): (r: seq<string>)
    ensures |r| <= |lines|
    ensures forall k :: 0 <= k < |r| ==> Trim(r[k]) != []
  {
    if lines == [] then []
    else (if Trim(lines[0]) == [] then [] else [lines[0]]) + NonBlank(lines[1..])
  }

  /** The filter keeps exactly the lines that do not trim to empty. */
  lemma {:induction false} NonBlankKeeps(lines: seq<string>)
    ensures forall x :: x in NonBlank(lines) <==> x in lines && Trim(x) != []
    decreases |lines|
  {
    if lines != [] {
      NonBlankKeeps(lines[1..]);
      assert forall x :: x in lines <==> x == lines[0] || x in lines[1..];
    }
  }

  /** The filter on a line followed by more lines. */
  lemma NonBlankCons(x: string, rest: seq<string>)
    ensures NonBlank([x] + rest) == (if Trim(x) == [] then [] else [x]) + NonBlank(rest)
  {
    assert ([x] + rest)[1..] == rest;
  }

  /** One line in front of both sides of the piecewise filter. */
  lemma NonBlankAppendStep(a: seq<string>, b: seq<string>)
    requires a != []
    requires NonBlank(a[1..] + b) == NonBlank(a[1..]) + NonBlank(b)
    ensures NonBlank(a + b) == NonBlank(a) + NonBlank(b)
  {
    var head := if Trim(a[0]) == [] then [] else [a[0]];
    ConsSplit(a, b);
    NonBlankCons(a[0], a[1..] + b);
    NonBlankCons(a[0], a[1..]);
    ConcatAssoc(head, NonBlank(a[1..]), NonBlank(b));
  }

  /** Filtering works piecewise, so kept lines stay in their original order. */
  lemma {:induction false} NonBlankAppend(a: seq<string>, b: seq<string>)
    ensures NonBlank(a + b) == NonBlank(a) + NonBlank(b)
    decreases |a|
  {
    if a == [] {
      assert a + b == b;
    } else {
      NonBlankAppend(a[1..], b);
      NonBlankAppendStep(a, b);
    }
  }

  /** A text is blank exactly when every line of it is. */
  lemma {:induction false} BlankJoin(parts: seq<string>)
    ensures IsBlank(Join(parts, '\n')) <==> forall k :: 0 <= k < |parts| ==> IsBlank(parts[k])
    decreases |parts|
  {
    if |parts| > 1 {
      BlankJoin(parts[1..]);
      var j := Join(parts[1..], '\n');
      assert Join(parts, '\n') == parts[0] + ['\n'] + j;
      assert IsBlank(parts[0] + ['\n'] + j) <==> IsBlank(parts[0]) && IsBlank(j) by {
        var w := parts[0] + ['\n'] + j;
        if IsBlank(parts[0]) && IsBlank(j) {
          forall i | 0 <= i < |w| ensures IsJsSpace(w[i]) {
            if i > |parts[0]| {
              assert w[i] == j[i - |parts[0]| - 1];
            }
          }
        }
        if IsBlank(w) {
          forall i | 0 <= i < |parts[0]| ensures IsJsSpace(parts[0][i]) {
            assert parts[0][i] == w[i];
          }
          forall i | 0 <= i < |j| ensures IsJsSpace(j[i]) {
            assert j[i] == w[i + |parts[0]| + 1];
          }
        }
      }
      forall k | 1 <= k < |parts| ensures parts[k] == parts[1..][k - 1] { }
    }
  }

  /** The lines of a text with blank lines removed are empty exactly when
      the whole text is whitespace. */
  lemma {:induction false} NoLinesIffBlank(text: string)
    ensures NonBlank(Split(text, '\n')) == [] <==> IsBlank(text)
  {
    var parts := Split(text, '\n');
    BlankJoin(parts);
    NonBlankKeeps(parts);
    if NonBlank(parts) == [] {
      forall k | 0 <= k < |parts| ensures IsBlank(parts[k]) {
        assert parts[k] in parts;
      }
    } else {
      var x := NonBlank(parts)[0];
      assert x in parts && Trim(x) != [];
    }
  }

  /** The header test on the first remaining line:
      `toLowerCase().includes('btt') || toLowerCase().includes('no')`. */
  predicate IsHeader(line: string) {
    Contains(Lower(line), "btt") || Contains(Lower(line), "no")
  }

  /** `lines.slice(startIndex)`: the first line goes exactly when its
      lowercase form holds `btt` or `no` somewhere; the rest stays, in
      order. */
  function DropHeader(lines: seq<string>): (r: seq<string>)
    requires |lines| > 0
    ensures |lines| - 1 <= |r| <= |lines|
    ensures r == lines[|lines| - |r|..]
    ensures |r| < |lines| <==>
      (exists i :: OccursAt(Lower(lines[0]), "btt", i)) || (exists i :: OccursAt(Lower(lines[0]), "no", i))
  {
    ContainsIff(Lower(lines[0]), "btt");
    ContainsIff(Lower(lines[0]), "no");
    var startIndex := if IsHeader(lines[0]) then 1 else 0;
    lines[startIndex..]
  }

  /** `line` spells the lower-case word `u` at index `i`, in any mix of cases. */
  predicate AnyCaseAt(line: string, u: string, i: int) {
    0 <= i && i + |u| <= |line| && AnyCaseOf(line[i..i + |u|], u)
  }

  /** The lowercase form of `line` holds `u` at `i` exactly when `line`
      spells `u` there in any mix of cases. */
  lemma OccursAnyCase(line: string, u: string, i: int)
    requires IsLowerWord(u)
    ensures OccursAt(Lower(line), u, i) <==> AnyCaseAt(line, u, i)
  {
    if 0 <= i && i + |u| <= |line| {
      LowerSlice(line, i, i + |u|);
      LowerMatchesAnyCase(line[i..i + |u|], u);
    }
  }

  /** The header test ignores case: a line is a header exactly when it
      spells `btt` or `no` somewhere, each letter in either case. */
  lemma HeaderAnyCase(line: string)
    ensures IsHeader(line) <==> exists i :: AnyCaseAt(line, "btt", i) || AnyCaseAt(line, "no", i)
  {
    assert IsLowerWord("btt") by { assert "btt"[0] == 'b' && "btt"[1] == 't' && "btt"[2] == 't'; }
    assert IsLowerWord("no") by { assert "no"[0] == 'n' && "no"[1] == 'o'; }
    ContainsIff(Lower(line), "btt");
    ContainsIff(Lower(line), "no");
    forall i ensures OccursAt(Lower(line), "btt", i) <==> AnyCaseAt(line, "btt", i) {
      OccursAnyCase(line, "btt", i);
    }
    forall i ensures OccursAt(Lower(line), "no", i) <==> AnyCaseAt(line, "no", i) {
      OccursAnyCase(line, "no", i);
    }
  }

  /** A line holding `BTT`, `Btt`, `NO`, `No` or any other casing of the
      two words is a header, whatever surrounds the word. */
  lemma HeaderWord(p: string, w: string, s: string)
    requires AnyCaseOf(w, "btt") || AnyCaseOf(w, "no")
    ensures IsHeader(p + w + s)
  {
    var line := p + w + s;
    assert line[|p|..|p| + |w|] == w;
    HeaderAnyCase(line);
    if AnyCaseOf(w, "btt") {
      assert AnyCaseAt(line, "btt", |p|);
    } else {
      assert AnyCaseAt(line, "no", |p|);
    }
  }

  /** The data lines of an uploaded text, or the error that aborts the
      run before any lookup. */
  function DataLines(text: string): (r: Result<seq<string>, RunError>)
    ensures r.Success? ==> 1 <= |r.value| <= MaxLines
    ensures r.Success? ==> forall k :: 0 <= k < |r.value| ==> Trim(r.value[k]) != []
    ensures r.Failure? && r.error.TooManyLines? ==> r.error.count > MaxLines
  {
    var lines := NonBlank(Split(text, '\n'));
    if lines == [] then Failure(NoLines)
    else
      var dataLines := DropHeader(lines);
      if |dataLines| == 0 then Failure(NoData)
      else if |dataLines| > MaxLines then Failure(TooManyLines(|dataLines|))
      else Success(dataLines)
  }

  /** When each error happens: no lines exactly for a blank text; no data
      exactly when the only non-blank line is a header; too many lines
      exactly when more than 1000 remain after the header; otherwise the
      data lines are the non-blank lines minus the header. */
  lemma {:induction false} DataLinesSpec(text: string)
    ensures DataLines(text) == Failure(NoLines) <==> IsBlank(text)
    ensures !IsBlank(text) ==>
      var nb := NonBlank(Split(text, '\n'));
      && |nb| > 0
      && (DataLines(text) == Failure(NoData) <==> |nb| == 1 && IsHeader(nb[0]))
      && (DataLines(text).Failure? && DataLines(text).error.TooManyLines? <==> |DropHeader(nb)| > MaxLines)
      && (DataLines(text).Success? ==> DataLines(text).value == DropHeader(nb))
  {
    NoLinesIffBlank(text);
  }
}
