/** `get '/revoked'`: every line of every file under `revoked/` that looks
    like an OpenSSH public key with a comment, in file order and then line
    order, joined with newlines. The files are given as their contents, in
    the order `Dir.glob` lists them. */
module Revocation {
  import opened Results
  import opened RubyText

  // ---------------------------------------------------------------------
  // The line pattern (unityca.rb:193)
  // ---------------------------------------------------------------------

  /** `[a-zA-Z0-9\-\.@]`, used for the key type after `ssh-` and for the
      comment. */
  predicate IsNameChar(c: char)
  {
    'a' <= c <= 'z' || 'A' <= c <= 'Z' || '0' <= c <= '9' || c == '-' || c == '.' || c == '@'
  }

  /** `[A-Za-z0-9\+\/]`: base64 without the `=` padding. */
  predicate IsBase64Char(c: char)
  {
    'a' <= c <= 'z' || 'A' <= c <= 'Z' || '0' <= c <= '9' || c == '+' || c == '/'
  }

  predicate NameChars(s: string)
  {
    |s| > 0 && forall i :: 0 <= i < |s| ==> IsNameChar(s[i])
  }

  predicate Base64Chars(s: string)
  {
    |s| > 0 && forall i :: 0 <= i < |s| ==> IsBase64Char(s[i])
  }

  const KeyPrefix := "ssh-"

  /** `/^ssh-[a-zA-Z0-9\-\.@]+ [A-Za-z0-9\+\/]+( [a-zA-Z0-9\-\.\@]+)$/` on
      a line without newlines: exactly three space-separated fields, the
      first `ssh-` and a name, the second base64, the third (the comment,
      which the group makes mandatory) a name. */
  predicate RevocationLine(line: string)
  {
    var fields := SplitFields(line, " ");
    && |fields| == 3
    && |fields[0]| > |KeyPrefix| && fields[0][..|KeyPrefix|] == KeyPrefix
    && NameChars(fields[0][|KeyPrefix|..])
    && Base64Chars(fields[1])
    && NameChars(fields[2])
  }

  lemma NameCharsHaveNoSpace(s: string)
    requires NameChars(s) || Base64Chars(s)
    ensures ' ' !in s && '\n' !in s && '=' !in s
  {
  }

  /** Every key type, base64 body and comment of the allowed characters
      make a matching line. */
  lemma RevocationLineOf(keyType: string, body: string, comment: string)
    requires NameChars(keyType) && Base64Chars(body) && NameChars(comment)
    ensures RevocationLine(KeyPrefix + keyType + " " + body + " " + comment)
    ensures SplitFields(KeyPrefix + keyType + " " + body + " " + comment, " ") == [KeyPrefix + keyType, body, comment]
  {
    var first := KeyPrefix + keyType;
    NameCharsHaveNoSpace(keyType);
    NameCharsHaveNoSpace(body);
    NameCharsHaveNoSpace(comment);
    assert ' ' !in first;
    var xs := [first, body, comment];
    JoinCons(first, [body, comment], " ");
    JoinCons(body, [comment], " ");
    assert [first] + [body, comment] == xs;
    assert Join(xs, " ") == KeyPrefix + keyType + " " + body + " " + comment;
    SplitFieldsOfJoin(xs, ' ');
    assert first[..|KeyPrefix|] == KeyPrefix && first[|KeyPrefix|..] == keyType;
  }

  /** And every matching line is made that way: its three fields joined
      by single spaces. */
  lemma RevocationLineParts(line: string)
    requires RevocationLine(line)
    ensures var fields := SplitFields(line, " ");
      line == KeyPrefix + fields[0][|KeyPrefix|..] + " " + fields[1] + " " + fields[2]
  {
    var fields := SplitFields(line, " ");
    assert fields == [fields[0]] + [fields[1], fields[2]];
    JoinCons(fields[0], [fields[1], fields[2]], " ");
    assert [fields[1], fields[2]] == [fields[1]] + [fields[2]];
    JoinCons(fields[1], [fields[2]], " ");
    assert fields[0] == KeyPrefix + fields[0][|KeyPrefix|..];
  }

  /** A matching line has no `=` (padded base64 is never listed) and no
      newline. */
  lemma RevocationLineCharacters(line: string)
    requires RevocationLine(line)
    ensures '=' !in line && '\n' !in line
  {
    var fields := SplitFields(line, " ");
    RevocationLineParts(line);
    NameCharsHaveNoSpace(fields[0][|KeyPrefix|..]);
    NameCharsHaveNoSpace(fields[1]);
    NameCharsHaveNoSpace(fields[2]);
  }

  /** A key with no comment is never listed. */
  lemma CommentRequired(keyType: string, body: string)
    requires ' ' !in keyType && ' ' !in body
    ensures !RevocationLine(KeyPrefix + keyType + " " + body)
  {
    var first := KeyPrefix + keyType;
    assert ' ' !in first;
    JoinCons(first, [body], " ");
    assert [first] + [body] == [first, body];
    SplitFieldsOfJoin([first, body], ' ');
  }

  // ---------------------------------------------------------------------
  // Selecting and flattening (unityca.rb:190-194)
  // ---------------------------------------------------------------------

  /** `lines.select { |line| line.match(...) }`. */
  function Select(lines: seq<string>): (kept: seq<string>)
    ensures |kept| <= |lines|
    ensures forall i :: 0 <= i < |kept| ==> RevocationLine(kept[i])
    ensures forall line :: line in kept <==> line in lines && RevocationLine(line)
  {
    if |lines| == 0 then []
    else
      assert lines == [lines[0]] + lines[1..];
      (if RevocationLine(lines[0]) then [lines[0]] else []) + Select(lines[1..])
  }

  /** Selection keeps order: it distributes over concatenation. */
  lemma {:induction false} SelectAppend(a: seq<string>, b: seq<string>)
    ensures Select(a + b) == Select(a) + Select(b)
    decreases |a|
  {
    if |a| > 0 {
      assert (a + b)[1..] == a[1..] + b;
      SelectAppend(a[1..], b);
    } else {
      assert a + b == b;
    }
  }

  /** The selected lines of one file. */
  function MatchingLines(contents: string): seq<string>
  {
    Select(Split(contents, "\n"))
  }

  /** `.map { ... }.flatten` over the files, in order. */
  function RevokedLines(files: seq<string>): (lines: seq<string>)
    ensures forall i :: 0 <= i < |lines| ==> RevocationLine(lines[i])
  {
    if |files| == 0 then [] else MatchingLines(files[0]) + RevokedLines(files[1..])
  }

  /** File order then line order: the lines of earlier files come first. */
  lemma {:induction false} RevokedLinesAppend(a: seq<string>, b: seq<string>)
    ensures RevokedLines(a + b) == RevokedLines(a) + RevokedLines(b)
    decreases |a|
  {
    if |a| > 0 {
      assert (a + b)[1..] == a[1..] + b;
      RevokedLinesAppend(a[1..], b);
    } else {
      assert a + b == b;
    }
  }

  /** A file made of lines (each without a newline) contributes exactly
      its matching lines, in order; empty lines at its end, such as the one
      a final newline leaves, contribute nothing. */
  lemma FileContributes(lines: seq<string>)
    requires forall i :: 0 <= i < |lines| ==> '\n' !in lines[i]
    ensures RevokedLines([Join(lines, "\n")]) == Select(lines)
  {
    var joined := Join(lines, "\n");
    assert RevokedLines([joined]) == Select(Split(joined, "\n")) by {
      assert [joined][1..] == [];
    }
    if lines == [] {
      assert FindFirst("", "\n").None?;
    } else {
      SplitFieldsOfJoin(lines, '\n');
      var kept := DropTrailingEmpty(lines);
      assert Split(joined, "\n") == kept;
      SelectDropsTrailingEmpty(lines);
    }
  }

  lemma SelectDropsTrailingEmpty(xs: seq<string>)
    ensures Select(DropTrailingEmpty(xs)) == Select(xs)
  {
    var kept := DropTrailingEmpty(xs);
    assert xs == kept + xs[|kept|..];
    SelectAppend(kept, xs[|kept|..]);
    SelectOfEmpties(xs[|kept|..]);
  }

  /** An empty line never matches. */
  lemma {:induction false} SelectOfEmpties(xs: seq<string>)
    requires forall i :: 0 <= i < |xs| ==> xs[i] == ""
    ensures Select(xs) == []
    decreases |xs|
  {
    if |xs| > 0 {
      assert FindFirst("", " ").None?;
      assert SplitFields(xs[0], " ") == [""];
      SelectOfEmpties(xs[1..]);
    }
  }

  // ---------------------------------------------------------------------
  // The discarded sort and the joined answer (unityca.rb:196-198)
  // ---------------------------------------------------------------------

  /** `comment.split("@")[1..-1].reverse.join(".")`: None where Ruby's
      `[1..-1]` of an empty array is nil and `reverse` raises. */
  function CommentKey(comment: string): Option<string>
  {
    var parts := Split(comment, "@");
    if |parts| == 0 then None else Some(Join(Reverse(parts[1..]), "."))
  }

  /** The `sort_by` block: the key of the last whitespace-separated word. */
  function SortKey(line: string): Option<string>
  {
    var words := Words(line);
    if |words| == 0 then None else CommentKey(words[|words| - 1])
  }

  /** A name or base64 field is a word: it holds no whitespace. */
  lemma FieldIsWord(s: string)
    requires NameChars(s) || Base64Chars(s)
    ensures IsWord(s)
  {
  }

  /** The first field of a matching line, `ssh-` and a name, is a word. */
  lemma KeyTypeFieldIsWord(first: string)
    requires |first| > |KeyPrefix| && first[..|KeyPrefix|] == KeyPrefix
    requires NameChars(first[|KeyPrefix|..])
    ensures IsWord(first)
  {
    forall i | 0 <= i < |first| ensures !IsSpace(first[i]) {
      if i >= |KeyPrefix| {
        assert first[i] == first[|KeyPrefix|..][i - |KeyPrefix|];
      } else {
        assert first[i] == KeyPrefix[i];
      }
    }
  }

  /** On a matching line the sort key is the comment's key. */
  lemma SortKeyOfLine(line: string)
    requires RevocationLine(line)
    ensures SortKey(line) == CommentKey(SplitFields(line, " ")[2])
  {
    var fields := SplitFields(line, " ");
    KeyTypeFieldIsWord(fields[0]);
    FieldIsWord(fields[1]);
    FieldIsWord(fields[2]);
    WordsOfJoin(fields);
  }

  lemma {:induction false} JoinOfEmpties(xs: seq<string>, c: char)
    requires forall i :: 0 <= i < |xs| ==> xs[i] == ""
    ensures forall k :: 0 <= k < |Join(xs, [c])| ==> Join(xs, [c])[k] == c
    decreases |xs|
  {
    if |xs| > 1 {
      JoinOfEmpties(xs[1..], c);
      assert Join(xs, [c]) == [c] + Join(xs[1..], [c]);
    }
  }

  /** A string made only of `@` (the empty string included). */
  predicate AtOnly(s: string)
  {
    forall k :: 0 <= k < |s| ==> s[k] == '@'
  }

  /** The key is nil exactly for a comment made only of `@`. */
  lemma NilKeyExactlyForAts(comment: string)
    ensures CommentKey(comment).None? <==> AtOnly(comment)
  {
    var fields := SplitFields(comment, "@");
    if AtOnly(comment) {
      forall i | 0 <= i < |fields| ensures fields[i] == "" {
        NoOccurrenceOfChar(fields[i], '@');
        if |fields[i]| > 0 {
          CharOfJoin(fields, "@", i, 0);
        }
      }
    } else {
      var k :| 0 <= k < |comment| && comment[k] != '@';
      if Split(comment, "@") == [] {
        assert forall i :: 0 <= i < |fields| ==> fields[i] == "";
        JoinOfEmpties(fields, '@');
      }
    }
  }

  /** The sort key is computed for every line (raising on a nil key) and
      then thrown away; the lines are joined in the order given. */
  function JoinedListing(lines: seq<string>): (r: Result<string>)
    ensures r.Err? ==> r.status == 500
  {
    if forall i :: 0 <= i < |lines| ==> SortKey(lines[i]).Some? then Ok(Join(lines, "\n"))
    else Err(500, "undefined method 'reverse' for nil")
  }

  /** What `get '/revoked'` answers. */
  function RevokedListing(files: seq<string>): Result<string>
  {
    JoinedListing(RevokedLines(files))
  }

  /** The comment of a matching line, its third field. */
  function Comment(line: string): string
    requires RevocationLine(line)
  {
    SplitFields(line, " ")[2]
  }

  /** The answer for a list of collected lines fails exactly when one of
      them has a comment made only of `@`. */
  lemma JoinedListingFails(lines: seq<string>)
    requires forall i :: 0 <= i < |lines| ==> RevocationLine(lines[i])
    ensures JoinedListing(lines).Ok? <==> forall i :: 0 <= i < |lines| ==> !AtOnly(Comment(lines[i]))
  {
    forall i | 0 <= i < |lines| ensures SortKey(lines[i]).None? <==> AtOnly(Comment(lines[i])) {
      LineKeyNilExactlyForAts(lines[i]);
    }
  }

  lemma LineKeyNilExactlyForAts(line: string)
    requires RevocationLine(line)
    ensures SortKey(line).None? <==> AtOnly(Comment(line))
  {
    SortKeyOfLine(line);
    NilKeyExactlyForAts(Comment(line));
  }

  /** A successful answer splits back on newlines into exactly the
      collected lines, in file order then line order. */
  lemma ListingSplitsBack(files: seq<string>)
    requires RevokedListing(files).Ok?
    ensures Split(RevokedListing(files).value, "\n") == RevokedLines(files)
    // nor does the answer end in a newline
    ensures var v := RevokedListing(files).value; v == [] || v[|v| - 1] != '\n'
  {
    var lines := RevokedLines(files);
    if |lines| > 0 {
      var last := lines[|lines| - 1];
      RevocationLineCharacters(last);
      JoinEndsWithLast(lines, "\n");
      var v := Join(lines, "\n");
      assert |last| > 0 by { assert SplitFields(last, " ") != [""]; }
      assert v[|v| - 1] == last[|last| - 1];
    }
    forall i | 0 <= i < |lines| ensures '\n' !in lines[i] {
      RevocationLineCharacters(lines[i]);
    }
    if |lines| > 0 {
      assert Base64Chars(SplitFields(lines[|lines| - 1], " ")[1]);
    }
    SplitOfJoin(lines, '\n');
  }

  // ---------------------------------------------------------------------
  // As written: the order is file order, not the announced domain order
  // ---------------------------------------------------------------------

  /** A single line (no newline, not empty) read as a file is that line. */
  lemma SingleLineFile(line: string)
    requires RevocationLine(line)
    ensures MatchingLines(line) == [line]
  {
    RevocationLineCharacters(line);
    assert line != "" by {
      assert Base64Chars(SplitFields(line, " ")[1]);
      RevocationLineParts(line);
    }
    assert Join([line], "\n") == line;
    SplitOfJoin([line], '\n');
  }

  /** Two one-line files whose domain keys are out of order (for instance
      `root@web.example` before `root@db.example`) are listed as they come:
      the `sort_by` result is dropped, so the answer is not in domain
      order. */
  lemma DiscardedSortKeepsFileOrder(first: string, second: string)
    requires RevocationLine(first) && RevocationLine(second)
    requires !AtOnly(Comment(first)) && !AtOnly(Comment(second))
    requires !LexLe(DomainKey(first), DomainKey(second))
    ensures RevokedListing([first, second]) == Ok(first + "\n" + second)
    ensures !SortedByDomain([first, second])
  {
    SingleLineFile(first);
    SingleLineFile(second);
    assert [first, second][1..] == [second];
    assert RevokedLines([second]) == [second];
    assert RevokedLines([first, second]) == [first, second];
    JoinedListingFails([first, second]);
    JoinCons(first, [second], "\n");
    assert [first] + [second] == [first, second];
  }

  lemma CommentKeyOf(user: string, domain: string)
    requires '@' !in user && '@' !in domain && domain != ""
    ensures CommentKey(user + "@" + domain) == Some(domain)
  {
    JoinCons(user, [domain], "@");
    assert [user] + [domain] == [user, domain];
    SplitOfJoin([user, domain], '@');
    assert Reverse([domain]) == [domain];
  }

  /** The line `ssh-<type> <body> <user>@<domain>` matches and its sort key
      is the domain. */
  lemma KeyOfUserAtDomain(keyType: string, body: string, user: string, domain: string)
    requires NameChars(keyType) && Base64Chars(body) && NameChars(user + "@" + domain)
    requires '@' !in user && '@' !in domain && domain != ""
    ensures var line := KeyPrefix + keyType + " " + body + " " + user + "@" + domain;
      && RevocationLine(line) && Comment(line) == user + "@" + domain && !AtOnly(Comment(line))
      && SortKey(line) == Some(domain)
  {
    var comment := user + "@" + domain;
    var line := KeyPrefix + keyType + " " + body + " " + comment;
    RevocationLineOf(keyType, body, comment);
    assert KeyPrefix + keyType + " " + body + " " + user + "@" + domain == line;
    SortKeyOfLine(line);
    CommentKeyOf(user, domain);
    DomainCommentNotAtOnly(user, domain);
  }

  lemma DomainCommentNotAtOnly(user: string, domain: string)
    requires '@' !in domain && domain != ""
    ensures !AtOnly(user + "@" + domain)
  {
    assert (user + "@" + domain)[|user| + 1] == domain[0];
  }

  /** A single line whose comment is only `@` makes the whole listing fail
      with a 500, whatever good lines come before it. */
  lemma AtCommentFailsListing(good: seq<string>, line: string)
    requires RevocationLine(line) && AtOnly(Comment(line))
    ensures RevokedListing(good + [line]).Err?
  {
    RevokedLinesAppend(good, [line]);
    SingleLineFile(line);
    assert [line][1..] == [];
    assert RevokedLines([line]) == [line];
    var lines := RevokedLines(good + [line]);
    assert lines[|lines| - 1] == line;
    JoinedListingFails(lines);
  }

  // ---------------------------------------------------------------------
  // Corrected: the listing sorted by domain, never failing
  // ---------------------------------------------------------------------

  /** `String#<=>` on these ASCII strings, as "at most". */
  predicate LexLe(a: string, b: string)
    decreases |a|
  {
    |a| == 0 || (|b| > 0 && (a[0] < b[0] || (a[0] == b[0] && LexLe(a[1..], b[1..]))))
  }

  lemma {:induction false} LexLeTotal(a: string, b: string)
    ensures LexLe(a, b) || LexLe(b, a)
    decreases |a|
  {
    if |a| > 0 && |b| > 0 && a[0] == b[0] {
      LexLeTotal(a[1..], b[1..]);
    }
  }

  lemma {:induction false} LexLeTransitive(a: string, b: string, c: string)
    requires LexLe(a, b) && LexLe(b, c)
    ensures LexLe(a, c)
    decreases |a|
  {
    if |a| > 0 && a[0] == b[0] && b[0] == c[0] {
      LexLeTransitive(a[1..], b[1..], c[1..]);
    }
  }

  /** The sort key with nil read as the empty string. */
  function DomainKey(line: string): string
  {
    match SortKey(line)
    case Some(key) => key
    case None => ""
  }

  predicate SortedByDomain(lines: seq<string>)
  {
    forall i, j :: 0 <= i < j < |lines| ==> LexLe(DomainKey(lines[i]), DomainKey(lines[j]))
  }

  function InsertByDomain(line: string, sorted: seq<string>): (r: seq<string>)
    ensures multiset(r) == multiset(sorted) + multiset{line}
  {
    if |sorted| == 0 then [line]
    else if LexLe(DomainKey(line), DomainKey(sorted[0])) then [line] + sorted
    else
      assert sorted == [sorted[0]] + sorted[1..];
      [sorted[0]] + InsertByDomain(line, sorted[1..])
  }

  lemma SortedCons(line: string, rest: seq<string>)
    requires SortedByDomain(rest)
    requires forall j :: 0 <= j < |rest| ==> LexLe(DomainKey(line), DomainKey(rest[j]))
    ensures SortedByDomain([line] + rest)
  {
    var r := [line] + rest;
    assert r[0] == line;
    assert forall k :: 0 < k < |r| ==> r[k] == rest[k - 1];
  }

  /** Insertion keeps a list in domain order. */
  lemma {:induction false} InsertKeepsSorted(line: string, sorted: seq<string>)
    requires SortedByDomain(sorted)
    ensures SortedByDomain(InsertByDomain(line, sorted))
    decreases |sorted|
  {
    if |sorted| > 0 {
      var key, first := DomainKey(line), DomainKey(sorted[0]);
      if LexLe(key, first) {
        forall j | 0 <= j < |sorted| ensures LexLe(key, DomainKey(sorted[j])) {
          if j > 0 { LexLeTransitive(key, first, DomainKey(sorted[j])); }
        }
        SortedCons(line, sorted);
      } else {
        var rest := InsertByDomain(line, sorted[1..]);
        InsertKeepsSorted(line, sorted[1..]);
        LexLeTotal(key, first);
        forall j | 0 <= j < |rest| ensures LexLe(first, DomainKey(rest[j])) {
          assert rest[j] in multiset(rest);
          if rest[j] != line {
            assert rest[j] in multiset(sorted[1..]);
            var k :| 0 <= k < |sorted[1..]| && sorted[1..][k] == rest[j];
            assert sorted[k + 1] == rest[j];
          }
        }
        SortedCons(sorted[0], rest);
      }
    }
  }

  function SortByDomain(lines: seq<string>): (r: seq<string>)
    ensures multiset(r) == multiset(lines)
  {
    if |lines| == 0 then []
    else
      assert lines == lines[..|lines| - 1] + [lines[|lines| - 1]];
      InsertByDomain(lines[|lines| - 1], SortByDomain(lines[..|lines| - 1]))
  }

  lemma {:induction false} SortByDomainSorted(lines: seq<string>)
    ensures SortedByDomain(SortByDomain(lines))
    decreases |lines|
  {
    if |lines| > 0 {
      SortByDomainSorted(lines[..|lines| - 1]);
      InsertKeepsSorted(lines[|lines| - 1], SortByDomain(lines[..|lines| - 1]));
    }
  }

  /** The listing the comment in the handler announces: the collected
      lines sorted by domain key, with a nil key read as empty. */
  function SortedRevokedListing(files: seq<string>): string
  {
    Join(SortByDomain(RevokedLines(files)), "\n")
  }

  /** The corrected listing splits back into the collected lines, each
      exactly as often, in domain order. */
  lemma SortedListingIsPermutation(files: seq<string>)
    ensures var lines := Split(SortedRevokedListing(files), "\n");
      SortedByDomain(lines) && multiset(lines) == multiset(RevokedLines(files))
  {
    var collected := RevokedLines(files);
    var sorted := SortByDomain(collected);
    SortByDomainSorted(collected);
    forall i | 0 <= i < |sorted| ensures '\n' !in sorted[i] && RevocationLine(sorted[i]) {
      assert sorted[i] in multiset(collected);
      var k :| 0 <= k < |collected| && collected[k] == sorted[i];
      RevocationLineCharacters(sorted[i]);
    }
    if |sorted| > 0 {
      assert Base64Chars(SplitFields(sorted[|sorted| - 1], " ")[1]);
      RevocationLineParts(sorted[|sorted| - 1]);
    }
    SplitOfJoin(sorted, '\n');
  }

  /** The two lines of the example above come out in domain order. */
  lemma CorrectedOrder(first: string, second: string)
    requires RevocationLine(first) && RevocationLine(second)
    requires !LexLe(DomainKey(first), DomainKey(second))
    ensures SortedRevokedListing([first, second]) == second + "\n" + first
  {
    SingleLineFile(first);
    SingleLineFile(second);
    assert [first, second][1..] == [second];
    assert RevokedLines([second]) == [second];
    assert RevokedLines([first, second]) == [first, second];
    assert [first, second][..1] == [first];
    assert SortByDomain([first]) == [first];
    LexLeTotal(DomainKey(first), DomainKey(second));
    assert SortByDomain([first, second]) == [second, first];
    JoinCons(second, [first], "\n");
    assert [second] + [first] == [second, first];
  }

  /** The corrected listing never fails: a line whose comment is only `@`
      is listed like any other. */
  lemma CorrectedListsAtComment(line: string)
    requires RevocationLine(line) && AtOnly(Comment(line))
    ensures SortedRevokedListing([line]) == line
  {
    SingleLineFile(line);
    assert [line][1..] == [];
    assert RevokedLines([line]) == [line];
    assert SortByDomain([line]) == [line];
  }

}
