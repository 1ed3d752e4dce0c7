/** `parse_request!` and the argument strings of `valid_signature?`: a
    rotation request is a signed section and an unsigned section separated
    by a blank line. The signed section names the hosts, a timestamp, the new
    key and the old key; the unsigned one holds a signature by each key over
    the signed section. `ssh-keygen -Y verify` itself is a parameter. */
module RequestParser {
  import opened Results
  import opened RubyText
  import SignatureCodec

  /** The hash `parse_request!` returns. The timestamp is kept as its
      digits; `Time.at` of it is never used downstream. */
  datatype Request = Request(
    hostnames: seq<string>,
    identity: string,
    timestamp: string,
    newPubkey: string,
    oldPubkey: string,
    newPubkeySig: string,
    oldPubkeySig: string,
    newType: string,
    oldType: string)
  {
    /** `parsed[:hostname]`, i.e. `hostnames.first`, as string interpolation
        sees it (`nil` becomes the empty string). */
    function Hostname(): string
    {
      FirstOrEmpty(hostnames)
    }
  }

  /** One run of `ssh-keygen -Y verify`: the message piped in, the armored
      signature file, the allowed-signers file, `-I` and `-n`. */
  datatype Verification = Verification(
    message: string,
    signature: string,
    signers: string,
    identity: string,
    namespaces: string)

  /** Whether `ssh-keygen -Y verify` exits with status 0 on those inputs. */
  type Verifier = Verification -> bool

  /** The outcome of parsing, and the verifier runs made, in order. */
  datatype Parsed = Parsed(result: Result<Request>, calls: seq<Verification>)

  const SupportedType := "ed25519"

  // ---------------------------------------------------------------------
  // The structural checks (unityca.rb:79-89)
  // ---------------------------------------------------------------------

  /** `/^[a-z0-9,\-\.]+$/` on a single line. */
  predicate HostnamePattern(s: string)
  {
    |s| > 0 && forall i :: 0 <= i < |s| ==> ('a' <= s[i] <= 'z' || '0' <= s[i] <= '9' || s[i] in ",-.")
  }

  /** `/^\d+$/` on a single line. */
  predicate Digits(s: string)
  {
    |s| > 0 && forall i :: 0 <= i < |s| ==> '0' <= s[i] <= '9'
  }

  /** A body cut into its sections: the signed text (with its newline put
      back) and the lines of both sections. */
  datatype Sections = Sections(signed: string, signedLines: seq<string>, unsignedLines: seq<string>)
  {
    predicate Valid()
    {
      && |signedLines| >= 4
      && |unsignedLines| >= 2
      && HostnamePattern(Downcase(signedLines[0]))
      && Digits(signedLines[1])
    }
  }

  /** `signed, unsigned = reqbody.split("\n\n")`, `signed += "\n"`, the
      line splits and the four checks, in the order the source makes them. */
  function SplitSections(body: string): (r: Result<Sections>)
    ensures r.Ok? ==> r.value.Valid()
    ensures r.Err? ==> r.status == 400
    // the signed text is the body up to its first blank line, plus a newline
    ensures r.Ok? ==> FindFirst(body, "\n\n").Some?
                      && r.value.signed == body[..FindFirst(body, "\n\n").value] + "\n"
  {
    var parts := Split(body, "\n\n");
    if |parts| < 2 then Err(400, "need signed and unsigned section")
    else
      SplitFirstField(body, "\n\n");
      var signed := parts[0] + "\n";
      var lines, sigs := Split(signed, "\n"), Split(parts[1], "\n");
      if |lines| < 4 then Err(400, "expect >= 4 lines in signed section")
      else if |sigs| < 2 then Err(400, "expect >= 2 lines in unsigned section")
      else if !HostnamePattern(Downcase(lines[0])) then
        Err(400, "expect valid hostname in first line of signed section")
      else if !Digits(lines[1]) then
        Err(400, "expect valid millisecond timestamp in second line of signed section")
      else Ok(Sections(signed, lines, sigs))
  }

  /** The sections are cut from the body itself: the signed lines are the
      lines of the signed text, the unsigned lines those of the second
      `"\n\n"`-separated part (any further part is ignored), and a body
      whose two first parts pass the four checks is accepted. */
  lemma SectionsOfBody(body: string)
    ensures var r, parts := SplitSections(body), Split(body, "\n\n");
      && (r.Ok? ==>
            && |parts| >= 2
            && r.value.signed == parts[0] + "\n"
            && r.value.signedLines == Split(r.value.signed, "\n")
            && r.value.unsignedLines == Split(parts[1], "\n"))
      && ((|parts| >= 2 && Sections(parts[0] + "\n", Split(parts[0] + "\n", "\n"), Split(parts[1], "\n")).Valid())
            ==> r.Ok?)
  {
  }

  predicate WellFormed(body: string)
  {
    SplitSections(body).Ok?
  }

  // ---------------------------------------------------------------------
  // Building the hash (unityca.rb:91-106)
  // ---------------------------------------------------------------------

  /** `key.split(" ").first.split("-")[1]`: the text after the first dash of
      the first word, `nil` (None) when the word has no second dash field,
      and a NoMethodError (status 500) when the line has no word at all. */
  function KeyType(keyLine: string): Result<Option<string>>
  {
    var words := Words(keyLine);
    if |words| == 0 then Err(500, "undefined method 'split' for nil")
    else
      var fields := Split(words[0], "-");
      Ok(if |fields| >= 2 then Some(fields[1]) else None)
  }

  /** The hash of lines 93-104, then the key-type check of line 106. */
  function BuildRequest(s: Sections): (r: Result<Request>)
    requires s.Valid()
    ensures r.Ok? ==> r.value.newType == SupportedType && r.value.oldType == SupportedType
    ensures r.Ok? <==>
      KeyType(s.signedLines[2]) == Ok(Some(SupportedType)) && KeyType(s.signedLines[3]) == Ok(Some(SupportedType))
  {
    var lines := s.signedLines;
    var hostnames := Split(lines[0], ",");
    var identity := "unityca-" + lines[1] + "@" + FirstOrEmpty(hostnames);
    var newSig := SignatureCodec.Reconstitute(s.unsignedLines[0]);
    var oldSig := SignatureCodec.Reconstitute(s.unsignedLines[1]);
    var newType, oldType := KeyType(lines[2]), KeyType(lines[3]);
    if newType.Err? then Err(newType.status, newType.message)
    else if oldType.Err? then Err(oldType.status, oldType.message)
    else if !(oldType.value == newType.value && newType.value == Some(SupportedType)) then
      Err(400, "only ed25519 supported")
    else
      Ok(Request(hostnames, identity, lines[1], lines[2], lines[3], newSig, oldSig,
                 SupportedType, SupportedType))
  }

  // ---------------------------------------------------------------------
  // The two signature checks (unityca.rb:51-67, 107-108)
  // ---------------------------------------------------------------------

  /** The allowed-signers line: `identity + " " + key.split(" ")[0..1].join(" ") + "\n"`. */
  function SignersLine(identity: string, key: string): string
  {
    identity + " " + Join(Take(Words(key), 2), " ") + "\n"
  }

  /** The arguments of `valid_signature?(signed, sig, key, identity, hostnames)`. */
  function VerificationFor(message: string, signature: string, key: string, identity: string,
                           hostnames: seq<string>): Verification
  {
    Verification(message, signature, SignersLine(identity, key), identity, Join(hostnames, ","))
  }

  function NewKeyCheck(signed: string, r: Request): Verification
  {
    VerificationFor(signed, r.newPubkeySig, r.newPubkey, r.identity, r.hostnames)
  }

  function OldKeyCheck(signed: string, r: Request): Verification
  {
    VerificationFor(signed, r.oldPubkeySig, r.oldPubkey, r.identity, r.hostnames)
  }

  /** New key first; the old key is checked only once the new one passed. */
  function Authenticate(signed: string, r: Request, verify: Verifier): (p: Parsed)
    ensures 1 <= |p.calls| <= 2 && p.calls[0] == NewKeyCheck(signed, r)
    ensures |p.calls| == 2 <==> verify(NewKeyCheck(signed, r))
    ensures |p.calls| == 2 ==> p.calls[1] == OldKeyCheck(signed, r)
    ensures p.result.Ok? <==> verify(NewKeyCheck(signed, r)) && verify(OldKeyCheck(signed, r))
    ensures p.result.Ok? ==> p.result.value == r
    ensures p.result.Err? ==> p.result.status == 400
  {
    var newCheck, oldCheck := NewKeyCheck(signed, r), OldKeyCheck(signed, r);
    if !verify(newCheck) then Parsed(Err(400, "invalid newkey signature"), [newCheck])
    else if !verify(oldCheck) then Parsed(Err(400, "invalid oldkey signature"), [newCheck, oldCheck])
    else Parsed(Ok(r), [newCheck, oldCheck])
  }

  // ---------------------------------------------------------------------
  // parse_request!
  // ---------------------------------------------------------------------

  function Parse(body: string, verify: Verifier): (p: Parsed)
    // structural rejections happen before any verifier run
    ensures !WellFormed(body) ==> p.result.Err? && p.result.status == 400 && p.calls == []
    // the old key is verified only once the new key has passed, at most once each
    ensures |p.calls| <= 2
    ensures |p.calls| == 2 ==> verify(p.calls[0])
    ensures p.result.Ok? <==> |p.calls| == 2 && verify(p.calls[0]) && verify(p.calls[1])
    ensures p.result.Err? ==> p.result.status == 400 || p.result.status == 500
    // both key types are ed25519 in every request that gets through
    ensures p.result.Ok? ==> p.result.value.newType == SupportedType && p.result.value.oldType == SupportedType
  {
    match SplitSections(body)
    case Err(status, message) => Parsed(Err(status, message), [])
    case Ok(s) =>
      match BuildRequest(s)
      case Err(status, message) => Parsed(Err(status, message), [])
      case Ok(r) => Authenticate(s.signed, r, verify)
  }

  // ---------------------------------------------------------------------
  // What a successful parse and its verifier runs guarantee
  // ---------------------------------------------------------------------

  /** A request is accepted exactly when it is well formed, both keys are
      ed25519 keys, and both signatures verify; the request then carries
      line 0 split on commas, an identity naming the first host, and lines 2
      and 3 verbatim as the keys. */
  lemma ParseAcceptsExactly(body: string, verify: Verifier)
    ensures var p := Parse(body, verify);
      p.result.Ok? <==>
        && WellFormed(body)
        && var s := SplitSections(body).value;
        && KeyType(s.signedLines[2]) == Ok(Some(SupportedType))
        && KeyType(s.signedLines[3]) == Ok(Some(SupportedType))
        && |p.calls| == 2 && verify(p.calls[0]) && verify(p.calls[1])
    ensures var p := Parse(body, verify);
      p.result.Ok? ==>
        var lines, r := SplitSections(body).value.signedLines, p.result.value;
        && r.hostnames == Split(lines[0], ",")
        && r.identity == "unityca-" + lines[1] + "@" + r.Hostname()
        && r.timestamp == lines[1]
        && r.newPubkey == lines[2] && r.oldPubkey == lines[3]
  {
  }

  /** A well-formed request whose keys are not both ed25519 keys is
      refused with 400 before any verifier run; a key line with no word at
      all makes Ruby raise instead (500). */
  lemma KeyTypeRejectedBeforeVerifying(body: string, verify: Verifier)
    requires WellFormed(body)
    ensures var p, lines := Parse(body, verify), SplitSections(body).value.signedLines;
      var newType, oldType := KeyType(lines[2]), KeyType(lines[3]);
      && (newType.Err? || oldType.Err? ==> p.result.Err? && p.result.status == 500 && p.calls == [])
      && (newType.Ok? && oldType.Ok? && (newType.value != Some(SupportedType) || oldType.value != Some(SupportedType)) ==>
            p.result == Err(400, "only ed25519 supported") && p.calls == [])
  {
    var s := SplitSections(body).value;
    var b := BuildRequest(s);
    if b.Err? {
      assert Parse(body, verify) == Parsed(Err(b.status, b.message), []);
    }
  }

  /** Each verifier run is given, as its message, exactly the body up to the
      first blank line, plus one newline. */
  lemma SignedMessageIsPrefix(body: string, verify: Verifier)
    requires |Parse(body, verify).calls| > 0
    ensures FindFirst(body, "\n\n").Some?
    ensures var p, cut := Parse(body, verify), FindFirst(body, "\n\n").value;
      && p.calls[0].message == body[..cut] + "\n"
      && (|p.calls| == 2 ==> p.calls[1].message == body[..cut] + "\n")
  {
    ParseRuns(body, verify);
  }

  /** A parse that runs the verifier has passed the structural and key-type
      checks and is the signature checks of the request built. */
  lemma ParseRuns(body: string, verify: Verifier)
    requires |Parse(body, verify).calls| > 0
    ensures WellFormed(body)
    ensures var s := SplitSections(body).value;
      && BuildRequest(s).Ok?
      && Parse(body, verify) == Authenticate(s.signed, BuildRequest(s).value, verify)
      && BuildRequest(s).value.newPubkey == s.signedLines[2]
      && BuildRequest(s).value.oldPubkey == s.signedLines[3]
  {
    var s := SplitSections(body).value;
    assert BuildRequest(s).Ok?;
  }

  /** The new key's run comes first and the old key's second, each with the
      allowed-signers line built from that key; a failed run names its key. */
  lemma VerifierRunsInOrder(body: string, verify: Verifier)
    requires |Parse(body, verify).calls| > 0
    ensures WellFormed(body)
    ensures var p, lines := Parse(body, verify), SplitSections(body).value.signedLines;
      && p.calls[0].signers == SignersLine(p.calls[0].identity, lines[2])
      && (|p.calls| == 2 ==> p.calls[1].signers == SignersLine(p.calls[1].identity, lines[3]))
      && (p.result.Err? && |p.calls| == 1 ==> p.result.message == "invalid newkey signature")
      && (p.result.Err? && |p.calls| == 2 ==> p.result.message == "invalid oldkey signature")
  {
    ParseRuns(body, verify);
  }

  /** The hostname check runs on the downcased line, so it admits upper-case
      letters too; the line itself is what is split into hostnames. */
  lemma HostnameCheckIgnoresCase(line: string)
    ensures HostnamePattern(Downcase(line)) <==>
      |line| > 0 && forall i :: 0 <= i < |line| ==>
        ('a' <= line[i] <= 'z' || 'A' <= line[i] <= 'Z' || '0' <= line[i] <= '9' || line[i] in ",-.")
  {
    assert forall i :: 0 <= i < |line| ==> Downcase(line)[i] == LowerAscii(line[i]);
  }

  /** Hostnames keep their case and hold only letters, digits, dots and
      dashes: none of them can carry a slash into a path under `hosts/`. */
  lemma HostnamesAreNames(body: string, verify: Verifier)
    requires Parse(body, verify).result.Ok?
    ensures var hs := Parse(body, verify).result.value.hostnames;
      forall i, j :: 0 <= i < |hs| && 0 <= j < |hs[i]| ==>
        ('a' <= hs[i][j] <= 'z' || 'A' <= hs[i][j] <= 'Z' || '0' <= hs[i][j] <= '9' || hs[i][j] in "-.")
  {
    ParseAcceptsExactly(body, verify);
    HostnameFieldsAreNames(SplitSections(body).value.signedLines[0]);
  }

  lemma HostnameFieldsAreNames(line: string)
    requires HostnamePattern(Downcase(line))
    ensures var hs := Split(line, ",");
      forall i, j :: 0 <= i < |hs| && 0 <= j < |hs[i]| ==>
        ('a' <= hs[i][j] <= 'z' || 'A' <= hs[i][j] <= 'Z' || '0' <= hs[i][j] <= '9' || hs[i][j] in "-.")
  {
    var hs := Split(line, ",");
    HostnameCheckIgnoresCase(line);
    forall i, j | 0 <= i < |hs| && 0 <= j < |hs[i]|
      ensures 'a' <= hs[i][j] <= 'z' || 'A' <= hs[i][j] <= 'Z' || '0' <= hs[i][j] <= '9' || hs[i][j] in "-."
    {
      CharOfSplit(line, ',', i, j);
    }
  }

  /** The check admits `..`, `.` and an empty field between commas as
      hostnames; they are not names of hosts but of directories. */
  lemma DotHostnamesPass(name: string)
    requires HostnamePattern(Downcase(name)) && ',' !in name
    ensures var line := "..,.,," + name;
      && HostnamePattern(Downcase(line))
      && Split(line, ",") == ["..", ".", "", name]
  {
    var line := "..,.,," + name;
    HostnameCheckIgnoresCase(name);
    HostnameCheckIgnoresCase(line);
    assert forall i :: 6 <= i < |line| ==> line[i] == name[i - 6];
    var hs := ["..", ".", "", name];
    assert Join(hs, ",") == line by {
      assert hs[1..][1..][1..] == [name];
      assert Join(hs[1..][1..], ",") == "" + "," + name;
      assert Join(hs[1..], ",") == "." + "," + ("" + "," + name);
    }
    SplitOfJoin(hs, ',');
  }

  /** The namespace list handed to the verifier splits back into exactly
      the request's hostnames, so a signature scoped to fewer hosts cannot
      pass. */
  lemma NamespacesListEveryHostname(body: string, verify: Verifier)
    requires Parse(body, verify).result.Ok?
    ensures var p := Parse(body, verify);
      && p.calls[0].identity == p.calls[1].identity == p.result.value.identity
      && p.calls[0].namespaces == p.calls[1].namespaces
      && Split(p.calls[0].namespaces, ",") == p.result.value.hostnames
  {
    var s := SplitSections(body).value;
    var r := BuildRequest(s).value;
    assert Parse(body, verify) == Authenticate(s.signed, r, verify);
    FieldsJoinBack(s.signedLines[0]);
  }

  /** Joining the comma-separated fields of a line with commas and splitting
      again gives the same fields. */
  lemma FieldsJoinBack(line: string)
    ensures Split(Join(Split(line, ","), ","), ",") == Split(line, ",")
  {
    var hs := Split(line, ",");
    forall i | 0 <= i < |hs| ensures ',' !in hs[i] {
      NoOccurrenceOfChar(hs[i], ',');
    }
    SplitOfJoin(hs, ',');
  }

  /** The armored signatures handed to the verifier unwrap to the two lines
      of the unsigned section. */
  lemma SignaturesRecoverable(body: string, verify: Verifier)
    requires Parse(body, verify).result.Ok?
    ensures var r := Parse(body, verify).result.value;
      var sigs := SplitSections(body).value.unsignedLines;
      && r.newPubkeySig == SignatureCodec.Reconstitute(sigs[0])
      && r.oldPubkeySig == SignatureCodec.Reconstitute(sigs[1])
      && SignatureCodec.Unwrap(r.newPubkeySig) == sigs[0]
      && SignatureCodec.Unwrap(r.oldPubkeySig) == sigs[1]
  {
    var s := SplitSections(body).value;
    var r := BuildRequest(s).value;
    assert Parse(body, verify) == Authenticate(s.signed, r, verify);
    SectionLineUnwraps(s.unsignedLines[0]);
    SectionLineUnwraps(s.unsignedLines[1]);
  }

  lemma SectionLineUnwraps(line: string)
    requires NoOccurrence(line, "\n")
    ensures SignatureCodec.Unwrap(SignatureCodec.Reconstitute(line)) == line
  {
    NoOccurrenceOfChar(line, '\n');
    SignatureCodec.UnwrapReconstitute(line);
  }

  lemma WordsCons(w: string, rest: string)
    requires IsWord(w)
    ensures Words(w + " " + rest) == [w] + Words(rest)
  {
    var s := w + " " + rest;
    assert s == w + (" " + rest);
    WordEndOfWord(w, " " + rest);
    assert s[..|w|] == w;
    assert s[|w|..] == " " + rest;
    assert (" " + rest)[1..] == rest;
  }

  /** A key line `ssh-<type> <rest>` has key type `<type>` when the type has
      no dash of its own. */
  lemma KeyTypeOf(t: string, rest: string)
    requires IsWord(t) && '-' !in t
    ensures KeyType("ssh-" + t + " " + rest) == Ok(Some(t))
  {
    var w := "ssh-" + t;
    assert IsWord(w) by {
      assert forall i :: 4 <= i < |w| ==> w[i] == t[i - 4];
    }
    WordsCons(w, rest);
    assert w == "ssh" + ['-'] + t;
    SplitFieldsCons("ssh", t, '-');
    NoOccurrenceOfChar(t, '-');
    assert FindFirst(t, "-").None?;
    assert SplitFields(w, "-") == ["ssh", t];
  }

  /** The allowed-signers line keeps the key's type and base64 words and
      drops whatever follows them: no comment, a one-word comment, or a
      comment of several words. */
  lemma SignersLineDropsComment(identity: string, keyType: string, blob: string, rest: string)
    requires IsWord(keyType) && IsWord(blob)
    requires rest == [] || IsSpace(rest[0])
    ensures SignersLine(identity, keyType + " " + blob + rest)
         == identity + " " + keyType + " " + blob + "\n"
  {
    var key := keyType + " " + blob + rest;
    var ws := [keyType] + ([blob] + Words(rest));
    assert Words(key) == ws by {
      assert key == keyType + " " + (blob + rest);
      WordsCons(keyType, blob + rest);
      WordThen(blob, rest);
    }
    assert Join(Take(ws, 2), " ") == keyType + " " + blob by {
      assert Take(ws, 2) == [keyType] + [blob];
      JoinCons(keyType, [blob], " ");
    }
  }

  /** A word followed by nothing or by whitespace is the first word. */
  lemma WordThen(w: string, rest: string)
    requires IsWord(w)
    requires rest == [] || IsSpace(rest[0])
    ensures Words(w + rest) == [w] + Words(rest)
  {
    if rest == [] {
      WordsOfJoin([w]);
      assert w + rest == w;
    } else {
      var s := w + rest;
      WordEndOfWord(w, rest);
      assert s[..|w|] == w;
      assert s[|w|..] == rest;
    }
  }

}
