/** The parts of Ruby's String and Array behaviour the CA depends on.
    Request bodies arrive as binary strings, so every `char` here stands for
    one byte and case mapping touches ASCII letters only. */
module RubyText {
  import opened Results

  // ---------------------------------------------------------------------
  // Searching for a separator
  // ---------------------------------------------------------------------

  /** `sep` occurs in `s` starting at index `j`. */
  predicate OccursAt(s: string, sep: string, j: int)
  {
    0 <= j && j + |sep| <= |s| && s[j..j + |sep|] == sep
  }

  ghost predicate NoOccurrence(s: string, sep: string)
  {
    forall j :: !OccursAt(s, sep, j)
  }

  lemma OccursAtShift(s: string, sep: string, j: int)
    requires |s| > 0 && j >= 0
    ensures OccursAt(s, sep, j + 1) <==> OccursAt(s[1..], sep, j)
  {
    if j + 1 + |sep| <= |s| {
      assert s[j + 1..j + 1 + |sep|] == s[1..][j..j + |sep|];
    }
  }

  /** The leftmost occurrence of `sep` in `s`, the one Ruby's split finds. */
  function FindFirst(s: string, sep: string): (r: Option<nat>)
    requires |sep| > 0
    ensures r.Some? ==> OccursAt(s, sep, r.value)
    ensures r.Some? ==> forall j :: j < r.value ==> !OccursAt(s, sep, j)
    ensures r.None? ==> NoOccurrence(s, sep)
    decreases |s|
  {
    if |s| < |sep| then None
    else if s[..|sep|] == sep then Some(0)
    else
      var rest := FindFirst(s[1..], sep);
      assert forall j :: j >= 0 ==> (OccursAt(s, sep, j + 1) <==> OccursAt(s[1..], sep, j)) by {
        forall j | j >= 0 ensures OccursAt(s, sep, j + 1) <==> OccursAt(s[1..], sep, j) {
          OccursAtShift(s, sep, j);
        }
      }
      assert !OccursAt(s, sep, 0);
      match rest
      case None =>
        assert forall j :: !OccursAt(s, sep, j) by {
          forall j ensures !OccursAt(s, sep, j) {
            if j > 0 { assert !OccursAt(s[1..], sep, j - 1); }
          }
        }
        None
      case Some(i) =>
        assert forall j :: j < i + 1 ==> !OccursAt(s, sep, j) by {
          forall j | j < i + 1 ensures !OccursAt(s, sep, j) {
            if j > 0 { assert !OccursAt(s[1..], sep, j - 1); }
          }
        }
        Some(i + 1)
  }

  /** A prefix that ends before the first occurrence contains none. */
  lemma PrefixBeforeFirst(s: string, sep: string, i: nat)
    requires |sep| > 0 && i <= |s|
    requires forall j :: j < i ==> !OccursAt(s, sep, j)
    ensures NoOccurrence(s[..i], sep)
  {
    forall j | 0 <= j && j + |sep| <= i ensures !OccursAt(s[..i], sep, j) {
      assert s[..i][j..j + |sep|] == s[j..j + |sep|];
      assert !OccursAt(s, sep, j);
    }
  }

  lemma NoOccurrenceOfChar(s: string, c: char)
    ensures NoOccurrence(s, [c]) <==> c !in s
  {
    if c in s {
      var j :| 0 <= j < |s| && s[j] == c;
      assert s[j..j + 1] == [c];
      assert OccursAt(s, [c], j);
    } else {
      forall j ensures !OccursAt(s, [c], j) {
        if 0 <= j && j + 1 <= |s| { assert s[j..j + 1][0] == s[j]; }
      }
    }
  }

  // ---------------------------------------------------------------------
  // Array#join and String#split with a string separator
  // ---------------------------------------------------------------------

  /** `xs.join(sep)`. */
  function Join(xs: seq<string>, sep: string): string
  {
    if |xs| == 0 then ""
    else if |xs| == 1 then xs[0]
    else xs[0] + sep + Join(xs[1..], sep)
  }

  lemma JoinCons(x: string, xs: seq<string>, sep: string)
    requires |xs| > 0
    ensures Join([x] + xs, sep) == x + sep + Join(xs, sep)
  {
    assert ([x] + xs)[1..] == xs;
  }

  /** Every field between occurrences of `sep`, empty ones included; joining
      them back with `sep` gives `s` again. */
  function SplitFields(s: string, sep: string): (fields: seq<string>)
    requires |sep| > 0
    ensures |fields| >= 1
    ensures forall i :: 0 <= i < |fields| ==> NoOccurrence(fields[i], sep)
    ensures Join(fields, sep) == s
    decreases |s|
  {
    match FindFirst(s, sep)
    case None => [s]
    case Some(i) =>
      var rest := SplitFields(s[i + |sep|..], sep);
      PrefixBeforeFirst(s, sep, i);
      JoinCons(s[..i], rest, sep);
      assert s == s[..i] + sep + s[i + |sep|..] by {
        assert s[i..i + |sep|] == sep;
        assert s == s[..i] + s[i..i + |sep|] + s[i + |sep|..];
      }
      [s[..i]] + rest
  }

  /** Every field boundary is the leftmost occurrence of the separator in
      what remains: the first field ends at the first occurrence, and the
      rest are the fields of the text after it. */
  lemma SplitFieldsStep(s: string, sep: string)
    requires |sep| > 0
    ensures FindFirst(s, sep).None? ==> SplitFields(s, sep) == [s]
    ensures FindFirst(s, sep).Some? ==> var i := FindFirst(s, sep).value;
      SplitFields(s, sep) == [s[..i]] + SplitFields(s[i + |sep|..], sep)
  {
  }

  /** A join ends with its last element. */
  lemma {:induction false} JoinEndsWithLast(xs: seq<string>, sep: string)
    requires |xs| > 0
    ensures var j, last := Join(xs, sep), xs[|xs| - 1];
      |last| <= |j| && j[|j| - |last|..] == last
    decreases |xs|
  {
    if |xs| > 1 {
      JoinEndsWithLast(xs[1..], sep);
      var rest := Join(xs[1..], sep);
      assert Join(xs, sep) == (xs[0] + sep) + rest;
      assert xs[1..][|xs[1..]| - 1] == xs[|xs| - 1];
    }
  }

  /** Ruby drops the empty fields at the end of a split. */
  function DropTrailingEmpty(xs: seq<string>): (r: seq<string>)
    ensures |r| <= |xs| && r == xs[..|r|]
    ensures r == [] || r[|r| - 1] != ""
    ensures forall i :: |r| <= i < |xs| ==> xs[i] == ""
  {
    if |xs| == 0 || xs[|xs| - 1] != "" then xs
    else DropTrailingEmpty(xs[..|xs| - 1])
  }

  /** `s.split(sep)` for a string separator: the fields between the
      occurrences of `sep`, scanned left to right, without trailing empty
      fields (so `"".split(sep)` is `[]`). */
  function Split(s: string, sep: string): (r: seq<string>)
    requires |sep| > 0
    ensures forall i :: 0 <= i < |r| ==> NoOccurrence(r[i], sep)
    ensures r == [] || r[|r| - 1] != ""
  {
    DropTrailingEmpty(SplitFields(s, sep))
  }

  /** `s.split(sep)` is the list of fields of `s` between separators, less
      only empty fields at its end. */
  lemma SplitKeepsFields(s: string, sep: string)
    requires |sep| > 0
    ensures var fields, r := SplitFields(s, sep), Split(s, sep);
      && |r| <= |fields| && r == fields[..|r|]
      && forall i :: |r| <= i < |fields| ==> fields[i] == ""
  {
  }

  /** When a split yields two fields or more, the first one is everything
      before the leftmost occurrence of the separator. */
  lemma SplitFirstField(s: string, sep: string)
    requires |sep| > 0 && |Split(s, sep)| >= 2
    ensures FindFirst(s, sep).Some?
    ensures Split(s, sep)[0] == s[..FindFirst(s, sep).value]
  {
    assert Split(s, sep)[0] == SplitFields(s, sep)[0];
  }

  lemma SplitFieldsCons(a: string, b: string, c: char)
    requires c !in a
    ensures SplitFields(a + [c] + b, [c]) == [a] + SplitFields(b, [c])
  {
    var s := a + [c] + b;
    NoOccurrenceOfChar(a, c);
    assert OccursAt(s, [c], |a|) by { assert s[|a|..|a| + 1] == [c]; }
    forall j | j < |a| ensures !OccursAt(s, [c], j) {
      if 0 <= j { assert s[j..j + 1] == a[j..j + 1]; assert !OccursAt(a, [c], j); }
    }
    assert FindFirst(s, [c]) == Some(|a|);
    assert s[..|a|] == a && s[|a| + 1..] == b;
  }

  /** Splitting a join of separator-free fields gives the fields back. */
  lemma {:induction false} SplitFieldsOfJoin(xs: seq<string>, c: char)
    requires |xs| >= 1
    requires forall i :: 0 <= i < |xs| ==> c !in xs[i]
    ensures SplitFields(Join(xs, [c]), [c]) == xs
    decreases |xs|
  {
    if |xs| == 1 {
      NoOccurrenceOfChar(xs[0], c);
      assert FindFirst(xs[0], [c]).None?;
    } else {
      assert xs == [xs[0]] + xs[1..];
      JoinCons(xs[0], xs[1..], [c]);
      SplitFieldsOfJoin(xs[1..], c);
      SplitFieldsCons(xs[0], Join(xs[1..], [c]), c);
    }
  }

  /** `list.join(c).split(c) == list` for fields without `c` whose last
      field is not empty. */
  lemma SplitOfJoin(xs: seq<string>, c: char)
    requires forall i :: 0 <= i < |xs| ==> c !in xs[i]
    requires xs == [] || xs[|xs| - 1] != ""
    ensures Split(Join(xs, [c]), [c]) == xs
  {
    if xs == [] {
      assert FindFirst("", [c]).None?;
      assert SplitFields("", [c]) == [""];
    } else {
      SplitFieldsOfJoin(xs, c);
    }
  }

  lemma {:induction false} CharOfJoin(xs: seq<string>, sep: string, i: nat, j: nat)
    requires i < |xs| && j < |xs[i]|
    ensures xs[i][j] in Join(xs, sep)
    decreases |xs|
  {
    if |xs| > 1 {
      if i == 0 {
        assert Join(xs, sep) == xs[0] + (sep + Join(xs[1..], sep));
        assert Join(xs, sep)[j] == xs[0][j];
      } else {
        CharOfJoin(xs[1..], sep, i - 1, j);
        assert Join(xs, sep) == (xs[0] + sep) + Join(xs[1..], sep);
      }
    }
  }

  /** Every character of a field of `s.split(c)` is a character of `s`
      other than `c`. */
  lemma CharOfSplit(s: string, c: char, i: nat, j: nat)
    requires i < |Split(s, [c])| && j < |Split(s, [c])[i]|
    ensures Split(s, [c])[i][j] in s && Split(s, [c])[i][j] != c
  {
    var fields := SplitFields(s, [c]);
    assert Split(s, [c])[i] == fields[i];
    CharOfJoin(fields, [c], i, j);
    NoOccurrenceOfChar(fields[i], c);
  }

  // ---------------------------------------------------------------------
  // String#split(" "): awk-style splitting on runs of whitespace
  // ---------------------------------------------------------------------

  /** The bytes Ruby's awk-style split treats as whitespace. */
  predicate IsSpace(c: char)
  {
    c == ' ' || c == '\t' || c == '\n' || c == '\r' || c as int == 11 || c as int == 12
  }

  predicate IsWord(w: string)
  {
    |w| > 0 && forall i :: 0 <= i < |w| ==> !IsSpace(w[i])
  }

  /** The end of the run of non-whitespace bytes that starts at `k`. */
  function WordEnd(s: string, k: nat): (e: nat)
    requires k <= |s|
    ensures k <= e <= |s|
    ensures forall i :: k <= i < e ==> !IsSpace(s[i])
    ensures e == |s| || IsSpace(s[e])
    decreases |s| - k
  {
    if k == |s| || IsSpace(s[k]) then k else WordEnd(s, k + 1)
  }

  /** `s.split(" ")`: the maximal runs of non-whitespace bytes, in order. */
  function Words(s: string): (ws: seq<string>)
    ensures forall i :: 0 <= i < |ws| ==> IsWord(ws[i])
    decreases |s|
  {
    if |s| == 0 then []
    else if IsSpace(s[0]) then Words(s[1..])
    else
      var e := WordEnd(s, 0);
      [s[..e]] + Words(s[e..])
  }

  /** The non-whitespace bytes of `s`, in order. */
  function NonSpace(s: string): string
  {
    if |s| == 0 then "" else (if IsSpace(s[0]) then "" else [s[0]]) + NonSpace(s[1..])
  }

  /** The words, run together. */
  function Flatten(ws: seq<string>): string
  {
    if |ws| == 0 then "" else ws[0] + Flatten(ws[1..])
  }

  lemma {:induction false} NonSpaceOfRun(s: string, e: nat)
    requires e <= |s| && forall i :: 0 <= i < e ==> !IsSpace(s[i])
    ensures NonSpace(s) == s[..e] + NonSpace(s[e..])
    decreases e
  {
    if e == 0 {
      assert s[e..] == s;
    } else {
      NonSpaceOfRun(s[1..], e - 1);
      assert s[1..][e - 1..] == s[e..];
      assert s[..e] == [s[0]] + s[1..][..e - 1];
    }
  }

  /** The words hold every non-whitespace byte of `s` and nothing else, in
      their order in `s`. */
  lemma {:induction false} WordsKeepNonSpace(s: string)
    ensures Flatten(Words(s)) == NonSpace(s)
    decreases |s|
  {
    if |s| > 0 {
      if IsSpace(s[0]) {
        WordsKeepNonSpace(s[1..]);
      } else {
        var e := WordEnd(s, 0);
        var rest := Words(s[e..]);
        WordsKeepNonSpace(s[e..]);
        NonSpaceOfRun(s, e);
        assert ([s[..e]] + rest)[1..] == rest;
      }
    }
  }

  lemma WordEndOfWord(w: string, rest: string)
    requires IsWord(w) && |rest| > 0 && IsSpace(rest[0])
    ensures WordEnd(w + rest, 0) == |w|
  {
    var s := w + rest;
    var e := WordEnd(s, 0);
    assert forall i :: 0 <= i < |w| ==> s[i] == w[i];
    assert s[|w|] == rest[0];
  }

  /** Words separated by single spaces split back into the same words. */
  lemma {:induction false} WordsOfJoin(ws: seq<string>)
    requires forall i :: 0 <= i < |ws| ==> IsWord(ws[i])
    ensures Words(Join(ws, " ")) == ws
    decreases |ws|
  {
    if |ws| == 0 {
    } else if |ws| == 1 {
      var w := ws[0];
      assert WordEnd(w, 0) == |w| by {
        var e := WordEnd(w, 0);
      }
      assert w[|w|..] == "";
      assert w[..|w|] == w;
    } else {
      var w, tail := ws[0], Join(ws[1..], " ");
      JoinCons(w, ws[1..], " ");
      var s := w + " " + tail;
      assert s == w + (" " + tail);
      WordEndOfWord(w, " " + tail);
      assert s[..|w|] == w;
      assert s[|w|..] == " " + tail;
      assert (" " + tail)[1..] == tail;
      WordsOfJoin(ws[1..]);
      assert ws == [w] + ws[1..];
    }
  }

  // ---------------------------------------------------------------------
  // String#strip and String#downcase
  // ---------------------------------------------------------------------

  /** Whitespace for `strip`: the awk set and NUL. */
  predicate IsStripSpace(c: char)
  {
    IsSpace(c) || c == '\0'
  }

  function StripLeading(s: string): (r: string)
    ensures |r| <= |s| && r == s[|s| - |r|..]
    ensures r == [] || !IsStripSpace(r[0])
    ensures forall i :: 0 <= i < |s| - |r| ==> IsStripSpace(s[i])
  {
    if |s| == 0 || !IsStripSpace(s[0]) then s
    else
      var r := StripLeading(s[1..]);
      assert forall i :: 1 <= i < |s| - |r| ==> s[i] == s[1..][i - 1];
      r
  }

  function StripTrailing(s: string): (r: string)
    ensures |r| <= |s| && r == s[..|r|]
    ensures r == [] || !IsStripSpace(r[|r| - 1])
    ensures forall i :: |r| <= i < |s| ==> IsStripSpace(s[i])
  {
    if |s| == 0 || !IsStripSpace(s[|s| - 1]) then s
    else StripTrailing(s[..|s| - 1])
  }

  /** `s.strip`. */
  function Strip(s: string): string
  {
    StripTrailing(StripLeading(s))
  }

  /** A string whose every byte is below 128, which Ruby calls 7-bit: such
      a string compares equal to one with the same bytes in any
      ASCII-compatible encoding. */
  predicate SevenBit(s: string)
  {
    forall i :: 0 <= i < |s| ==> s[i] as int < 128
  }

  /** `strip` removes only ASCII bytes, so a byte of 128 or more stays. */
  lemma {:induction false} StripKeepsHighByte(s: string, i: nat)
    requires i < |s| && s[i] as int >= 128
    ensures !SevenBit(Strip(s))
  {
    var c := s[i];
    assert !IsStripSpace(c);
    var l := StripLeading(s);
    var k := i - (|s| - |l|);
    assert 0 <= k < |l| && l[k] == c by { LeadingKeepsNonSpace(s, i); }
    var t := StripTrailing(l);
    assert k < |t| && t[k] == c by { TrailingKeepsNonSpace(l, k); }
    assert Strip(s) == t;
  }

  lemma LeadingKeepsNonSpace(s: string, i: nat)
    requires i < |s| && !IsStripSpace(s[i])
    ensures var l := StripLeading(s);
      |s| - |l| <= i && l[i - (|s| - |l|)] == s[i]
  {
  }

  lemma TrailingKeepsNonSpace(s: string, i: nat)
    requires i < |s| && !IsStripSpace(s[i])
    ensures var t := StripTrailing(s);
      i < |t| && t[i] == s[i]
  {
  }

  /** Exactly the strings without whitespace at either end are left alone
      by `strip`. */
  lemma StripIdentity(s: string)
    ensures Strip(s) == s <==> (s == [] || (!IsStripSpace(s[0]) && !IsStripSpace(s[|s| - 1])))
  {
    var l := StripLeading(s);
    if s != [] && !IsStripSpace(s[0]) && !IsStripSpace(s[|s| - 1]) {
      assert l == s;
      var r := StripTrailing(l);
    }
    if Strip(s) == s && s != [] {
      assert |l| == |s| && l == s;
    }
  }

  function LowerAscii(c: char): char
  {
    if 'A' <= c <= 'Z' then (c as int + 32) as char else c
  }

  /** `s.downcase` on a binary string: ASCII letters only. */
  function Downcase(s: string): string
  {
    seq(|s|, i requires 0 <= i < |s| => LowerAscii(s[i]))
  }

  // ---------------------------------------------------------------------
  // Array helpers
  // ---------------------------------------------------------------------

  /** `xs.first`, with Ruby's `nil` interpolated as the empty string. */
  function FirstOrEmpty(xs: seq<string>): string
  {
    if |xs| > 0 then xs[0] else ""
  }

  /** `xs[0..n-1]`: at most the first `n` elements. */
  function Take<T>(xs: seq<T>, n: nat): seq<T>
  {
    if |xs| <= n then xs else xs[..n]
  }

  function Reverse<T>(xs: seq<T>): seq<T>
  {
    if |xs| == 0 then [] else Reverse(xs[1..]) + [xs[0]]
  }

}
