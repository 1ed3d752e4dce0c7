/** The host-key store under `hosts/`: `current_host_key`, `acceptable?`,
    `grant_certificate` and the two branches of `post '/host'`. The store is
    a map from path to file contents; directories are implicit in the paths.
    `ssh-keygen -h -s` is a parameter. */
module HostStore {
  import opened Results
  import opened RubyText
  import opened RequestParser

  type FileSystem = map<string, string>

  /** One run of `ssh-keygen -h -s keys/host_ca_key -I identity -n principals
      -V validity` on a key file with the given contents: the certificate it
      writes beside the key, or None when it fails and writes nothing. */
  type Signer = (string, string, string, string) -> Option<string>

  const CertValidity := "+1w"

  const MismatchMessage := "Public key does not match existing key on file"

  /** A file's contents, or None when there is no such file. */
  function Lookup(fs: FileSystem, path: string): Option<string>
  {
    if path in fs then Some(fs[path]) else None
  }

  // ---------------------------------------------------------------------
  // Paths (unityca.rb:114, 128-131, 140-143, 167)
  // ---------------------------------------------------------------------

  function KeyPath(hostname: string, keyType: string): string
  {
    "hosts/" + hostname + "/ssh_host_" + keyType + "_key.pub"
  }

  /** `path[0..-5] + "-cert.pub"`: the file `ssh-keygen -h` writes for a
      key file. */
  function CertOf(keyPath: string): string
    requires |keyPath| >= 4
  {
    keyPath[..|keyPath| - 4] + "-cert.pub"
  }

  function CertPath(hostname: string, keyType: string): string
  {
    CertOf(KeyPath(hostname, keyType))
  }

  function ProposedPath(hostname: string, keyType: string): string
  {
    KeyPath(hostname, keyType) + ".proposed"
  }

  /** The certificate of `ssh_host_<t>_key.pub` is `ssh_host_<t>_key-cert.pub`
      in the same directory. */
  lemma CertPathSpelledOut(hostname: string, keyType: string)
    ensures CertPath(hostname, keyType) == "hosts/" + hostname + "/ssh_host_" + keyType + "_key-cert.pub"
  {
    var stem := "hosts/" + hostname + "/ssh_host_" + keyType;
    assert KeyPath(hostname, keyType) == stem + "_key.pub";
    assert KeyPath(hostname, keyType)[..|KeyPath(hostname, keyType)| - 4] == stem + "_key";
  }

  /** Key files, certificates and proposals never share a path, whatever the
      hostnames and key types. */
  lemma PathsDistinct(h1: string, t1: string, h2: string, t2: string)
    ensures KeyPath(h1, t1) != CertPath(h2, t2)
    ensures ProposedPath(h1, t1) != KeyPath(h2, t2)
    ensures ProposedPath(h1, t1) != CertPath(h2, t2)
  {
    var key, cert := KeyPath(h1, t1), CertPath(h2, t2);
    var keyStem := "hosts/" + h1 + "/ssh_host_" + t1;
    var certStem := "hosts/" + h2 + "/ssh_host_" + t2;
    assert key == keyStem + "_key.pub";
    CertPathSpelledOut(h2, t2);
    assert cert == certStem + "_key-" + "cert.pub";
    if |key| == |cert| {
      assert key[|key| - 5] == 'y';
      assert cert[|cert| - 5] == 't';
    }
    assert key[|key| - 1] == 'b' && cert[|cert| - 1] == 'b';
    var proposal := ProposedPath(h1, t1);
    assert proposal[|proposal| - 1] == 'd';
    assert KeyPath(h2, t2)[|KeyPath(h2, t2)| - 1] == 'b';
  }

  // ---------------------------------------------------------------------
  // current_host_key and acceptable? (unityca.rb:113-125)
  // ---------------------------------------------------------------------

  /** The key on file for a host, stripped of surrounding whitespace. */
  function CurrentHostKey(fs: FileSystem, hostname: string, keyType: string): Option<string>
  {
    var path := KeyPath(hostname, keyType);
    if path in fs then Some(Strip(fs[path])) else None
  }

  /** `String#==` between the key read from a file (in the default
      external encoding, UTF-8) and a key from the binary request body: the
      bytes must agree and the strings must be comparable, which for these
      two encodings means the file's key is 7-bit. */
  predicate FileKeyEquals(onFile: string, sent: string)
  {
    SevenBit(onFile) && onFile == sent
  }

  /** `[nil, old_pubkey, new_pubkey].include?(current_key)`. */
  predicate KeyOnFileAllows(fs: FileSystem, r: Request, hostname: string)
  {
    var current := CurrentHostKey(fs, hostname, r.newType);
    current.None? || FileKeyEquals(current.value, r.oldPubkey) || FileKeyEquals(current.value, r.newPubkey)
  }

  /** The early-returning loop over the hostnames: true exactly when no
      hostname holds a key that `==` does not find equal to the request's
      old or new key. */
  function AcceptableFrom(fs: FileSystem, r: Request, hostnames: seq<string>): (ok: bool)
    ensures ok <==> forall h :: h in hostnames ==> KeyOnFileAllows(fs, r, h)
    ensures !ok <==> exists h :: h in hostnames && CurrentHostKey(fs, h, r.newType).Some?
                       && !FileKeyEquals(CurrentHostKey(fs, h, r.newType).value, r.oldPubkey)
                       && !FileKeyEquals(CurrentHostKey(fs, h, r.newType).value, r.newPubkey)
  {
    if |hostnames| == 0 then true
    else
      assert hostnames == [hostnames[0]] + hostnames[1..];
      KeyOnFileAllows(fs, r, hostnames[0]) && AcceptableFrom(fs, r, hostnames[1..])
  }

  predicate Acceptable(fs: FileSystem, r: Request)
  {
    AcceptableFrom(fs, r, r.hostnames)
  }

  // ---------------------------------------------------------------------
  // grant_certificate, as a function of the store (unityca.rb:127-153)
  // ---------------------------------------------------------------------

  /** `cp src dst`: fails and changes nothing when `src` does not exist. */
  function Copy(fs: FileSystem, src: string, dst: string): FileSystem
  {
    if src in fs then fs[dst := fs[src]] else fs
  }

  /** `rm -f path`. */
  function Remove(fs: FileSystem, path: string): FileSystem
  {
    fs - {path}
  }

  /** `rm -f old` unless `old == new`. */
  function RemoveUnlessSame(fs: FileSystem, newPath: string, oldPath: string): FileSystem
  {
    if newPath == oldPath then fs else Remove(fs, oldPath)
  }

  /** The signer's run on the canonical key file, which has just been
      written with the new key. */
  function SignNewKey(r: Request, sign: Signer): Option<string>
  {
    sign(r.newPubkey, r.identity, Join(r.hostnames, ","), CertValidity)
  }

  /** Lines 128-137: write the new key for the first hostname, sign it, and
      remove the old key and certificate when their paths differ. */
  function CanonicalGrant(fs: FileSystem, r: Request, sign: Signer): FileSystem
  {
    var h := r.Hostname();
    var keyNew, keyOld := KeyPath(h, r.newType), KeyPath(h, r.oldType);
    var written := fs[keyNew := r.newPubkey];
    var signed := match SignNewKey(r, sign)
      case Some(cert) => written[CertOf(keyNew) := cert]
      case None => written;
    RemoveUnlessSame(RemoveUnlessSame(signed, keyNew, keyOld), CertOf(keyNew), CertOf(keyOld))
  }

  /** Lines 140-149 for one further hostname: copy the canonical key and
      certificate, then remove the host's old key and certificate when their
      paths differ. */
  function AliasGrant(fs: FileSystem, r: Request, hostname: string): FileSystem
  {
    var canonical := KeyPath(r.Hostname(), r.newType);
    var keyNew, keyOld := KeyPath(hostname, r.newType), KeyPath(hostname, r.oldType);
    var copied := Copy(Copy(fs, canonical, keyNew), CertOf(canonical), CertOf(keyNew));
    RemoveUnlessSame(RemoveUnlessSame(copied, keyNew, keyOld), CertOf(keyNew), CertOf(keyOld))
  }

  /** The loop over `hostnames[1..-1]`, in order. */
  function AliasGrants(fs: FileSystem, r: Request, aliases: seq<string>): FileSystem
  {
    if |aliases| == 0 then fs
    else AliasGrant(AliasGrants(fs, r, aliases[..|aliases| - 1]), r, aliases[|aliases| - 1])
  }

  /** A store together with the handler's answer. */
  datatype Outcome = Outcome(files: FileSystem, response: Result<string>)

  /** The whole of `grant_certificate`. With no hostnames `hostnames[1..-1]`
      is nil and `each` raises after the canonical writes; the certificate is
      read back at the end, raising when it does not exist. */
  function Granted(fs: FileSystem, r: Request, sign: Signer): Outcome
  {
    var canonical := CanonicalGrant(fs, r, sign);
    if |r.hostnames| == 0 then Outcome(canonical, Err(500, "undefined method 'each' for nil"))
    else
      var after := AliasGrants(canonical, r, r.hostnames[1..]);
      var cert := CertPath(r.Hostname(), r.newType);
      if cert in after then Outcome(after, Ok(after[cert]))
      else Outcome(after, Err(500, "No such file or directory"))
  }

  // ---------------------------------------------------------------------
  // post '/host' (unityca.rb:160-170)
  // ---------------------------------------------------------------------

  /** Parse, then either grant or record the proposed key and refuse. */
  function Handle(fs: FileSystem, body: string, verify: Verifier, sign: Signer): Outcome
  {
    var p := Parse(body, verify);
    match p.result
    case Err(status, message) => Outcome(fs, Err(status, message))
    case Ok(r) =>
      if Acceptable(fs, r) then Granted(fs, r, sign)
      else Outcome(fs[ProposedPath(r.Hostname(), r.newType) := r.newPubkey], Err(409, MismatchMessage))
  }

  // ---------------------------------------------------------------------
  // The store as the handler mutates it
  // ---------------------------------------------------------------------

  class HostDirectory {
    var files: FileSystem

    constructor(initial: FileSystem)
      ensures files == initial
    {
      files := initial;
    }

    /** Lines 128-137: the canonical key, its certificate, the removals. */
    method GrantCanonical(r: Request, sign: Signer)
      modifies this
      ensures files == CanonicalGrant(old(files), r, sign)
    {
      var pathNew := KeyPath(r.Hostname(), r.newType);
      var pathOld := KeyPath(r.Hostname(), r.oldType);
      var certNew, certOld := CertOf(pathNew), CertOf(pathOld);
      files := files[pathNew := r.newPubkey];
      var cert := sign(files[pathNew], r.identity, Join(r.hostnames, ","), CertValidity);
      if cert.Some? {
        files := files[certNew := cert.value];
      }
      if pathNew != pathOld {
        files := files - {pathOld};
      }
      if certNew != certOld {
        files := files - {certOld};
      }
    }

    /** Lines 140-149: one pass of the loop, for one further hostname. */
    method GrantAlias(r: Request, hostname: string)
      modifies this
      ensures files == AliasGrant(old(files), r, hostname)
    {
      var pathNew := KeyPath(r.Hostname(), r.newType);
      var certNew := CertOf(pathNew);
      var secondaryNew := KeyPath(hostname, r.newType);
      var secondaryOld := KeyPath(hostname, r.oldType);
      var secondaryCertNew, secondaryCertOld := CertOf(secondaryNew), CertOf(secondaryOld);
      if pathNew in files {
        files := files[secondaryNew := files[pathNew]];
      }
      if certNew in files {
        files := files[secondaryCertNew := files[certNew]];
      }
      if secondaryNew != secondaryOld {
        files := files - {secondaryOld};
      }
      if secondaryCertNew != secondaryCertOld {
        files := files - {secondaryCertOld};
      }
    }

    /** `grant_certificate(parsed)`. */
    method GrantCertificate(r: Request, sign: Signer) returns (response: Result<string>)
      modifies this
      ensures Outcome(files, response) == Granted(old(files), r, sign)
    {
      GrantCanonical(r, sign);
      ghost var canonical := files;
      if |r.hostnames| == 0 {
        return Err(500, "undefined method 'each' for nil");
      }
      var aliases := r.hostnames[1..];
      for i := 0 to |aliases|
        invariant files == AliasGrants(canonical, r, aliases[..i])
      {
        GrantAlias(r, aliases[i]);
        assert aliases[..i + 1][..i] == aliases[..i];
      }
      assert aliases[..|aliases|] == aliases;
      var certNew := CertPath(r.Hostname(), r.newType);
      if certNew in files {
        response := Ok(files[certNew]);
      } else {
        response := Err(500, "No such file or directory");
      }
    }

    /** The `post '/host'` handler. */
    method PostHost(body: string, verify: Verifier, sign: Signer) returns (response: Result<string>)
      modifies this
      ensures Outcome(files, response) == Handle(old(files), body, verify, sign)
    {
      var p := Parse(body, verify);
      if p.result.Err? {
        return Err(p.result.status, p.result.message);
      }
      var r := p.result.value;
      if Acceptable(files, r) {
        response := GrantCertificate(r, sign);
      } else {
        files := files[ProposedPath(r.Hostname(), r.newType) := r.newPubkey];
        response := Err(409, MismatchMessage);
      }
    }
  }

  // ---------------------------------------------------------------------
  // What issuance does to the store
  // ---------------------------------------------------------------------

  ghost predicate IsKeyOf(path: string, hostnames: seq<string>, keyType: string)
  {
    exists h :: h in hostnames && path == KeyPath(h, keyType)
  }

  ghost predicate IsCertOf(path: string, hostnames: seq<string>, keyType: string)
  {
    exists h :: h in hostnames && path == CertPath(h, keyType)
  }

  lemma PathOfAppended(path: string, front: seq<string>, last: string, keyType: string)
    ensures IsKeyOf(path, front + [last], keyType) <==> IsKeyOf(path, front, keyType) || path == KeyPath(last, keyType)
    ensures IsCertOf(path, front + [last], keyType) <==> IsCertOf(path, front, keyType) || path == CertPath(last, keyType)
  {
    if IsKeyOf(path, front, keyType) {
      var h :| h in front && path == KeyPath(h, keyType);
      assert h in front + [last];
    }
    if IsCertOf(path, front, keyType) {
      var h :| h in front && path == CertPath(h, keyType);
      assert h in front + [last];
    }
  }

  lemma LookupExtensional(a: FileSystem, b: FileSystem)
    requires forall path :: Lookup(a, path) == Lookup(b, path)
    ensures a == b
  {
    forall path | path in a ensures path in b && a[path] == b[path] {
      assert Lookup(a, path) == Lookup(b, path);
    }
    forall path | path in b ensures path in a {
      assert Lookup(a, path) == Lookup(b, path);
    }
  }

  /** One pass of the loop when the key types agree: the host gets the
      canonical key, and the canonical certificate when there is one. */
  lemma AliasGrantStep(prev: FileSystem, r: Request, hostname: string)
    requires r.newType == r.oldType
    requires Lookup(prev, KeyPath(r.Hostname(), r.newType)) == Some(r.newPubkey)
    ensures var t, h0, next := r.newType, r.Hostname(), AliasGrant(prev, r, hostname);
      var cert := Lookup(prev, CertPath(h0, t));
      && Lookup(next, KeyPath(h0, t)) == Some(r.newPubkey)
      && Lookup(next, CertPath(h0, t)) == cert
      && Lookup(next, KeyPath(hostname, t)) == Some(r.newPubkey)
      && Lookup(next, CertPath(hostname, t)) == (if cert.Some? then cert else Lookup(prev, CertPath(hostname, t)))
      && (forall path :: path != KeyPath(hostname, t) && path != CertPath(hostname, t) ==>
            Lookup(next, path) == Lookup(prev, path))
  {
    var t, h0 := r.newType, r.Hostname();
    PathsDistinct(hostname, t, h0, t);
    PathsDistinct(h0, t, hostname, t);
    var copied := prev[KeyPath(hostname, t) := r.newPubkey];
    assert Lookup(copied, CertPath(h0, t)) == Lookup(prev, CertPath(h0, t));
    assert AliasGrant(prev, r, hostname) == Copy(copied, CertPath(h0, t), CertPath(hostname, t));
  }

  /** The loop over the further hostnames, when the old and new key types
      agree: each of them gets the canonical key and, when there is one, the
      canonical certificate; nothing else changes and nothing is removed. */
  lemma {:induction false} AliasGrantsEffects(base: FileSystem, r: Request, aliases: seq<string>)
    requires r.newType == r.oldType
    requires Lookup(base, KeyPath(r.Hostname(), r.newType)) == Some(r.newPubkey)
    ensures var t, after := r.newType, AliasGrants(base, r, aliases);
      var cert := Lookup(base, CertPath(r.Hostname(), t));
      && Lookup(after, KeyPath(r.Hostname(), t)) == Some(r.newPubkey)
      && Lookup(after, CertPath(r.Hostname(), t)) == cert
      && (forall h :: h in aliases ==> Lookup(after, KeyPath(h, t)) == Some(r.newPubkey))
      && (forall h :: h in aliases && cert.Some? ==> Lookup(after, CertPath(h, t)) == cert)
      && (forall path :: !IsKeyOf(path, aliases, t) && !(cert.Some? && IsCertOf(path, aliases, t)) ==>
            Lookup(after, path) == Lookup(base, path))
    decreases |aliases|
  {
    if |aliases| > 0 {
      var t, h0 := r.newType, r.Hostname();
      var front, last := aliases[..|aliases| - 1], aliases[|aliases| - 1];
      var cert := Lookup(base, CertPath(h0, t));
      AliasGrantsEffects(base, r, front);
      var prev := AliasGrants(base, r, front);
      var after := AliasGrants(base, r, aliases);
      assert after == AliasGrant(prev, r, last);
      AliasGrantStep(prev, r, last);
      assert aliases == front + [last];
      forall h | h in aliases ensures Lookup(after, KeyPath(h, t)) == Some(r.newPubkey) {
        if h != last {
          assert h in front;
          PathsDistinct(h, t, last, t);
        }
      }
      forall h | h in aliases && cert.Some? ensures Lookup(after, CertPath(h, t)) == cert {
        if h != last {
          assert h in front;
          PathsDistinct(last, t, h, t);
        }
      }
      AliasFrameStep(base, prev, after, front, last, t, cert);
    }
  }

  /** The frame of one more loop pass: a path outside the earlier aliases'
      writes and outside this pass's writes keeps its value. */
  lemma AliasFrameStep(base: FileSystem, prev: FileSystem, after: FileSystem, front: seq<string>, last: string,
                       t: string, cert: Option<string>)
    requires forall path :: !IsKeyOf(path, front, t) && !(cert.Some? && IsCertOf(path, front, t)) ==>
      Lookup(prev, path) == Lookup(base, path)
    requires forall path :: path != KeyPath(last, t) && path != CertPath(last, t) ==>
      Lookup(after, path) == Lookup(prev, path)
    requires cert.None? ==> Lookup(after, CertPath(last, t)) == Lookup(prev, CertPath(last, t))
    ensures forall path :: !IsKeyOf(path, front + [last], t) && !(cert.Some? && IsCertOf(path, front + [last], t)) ==>
      Lookup(after, path) == Lookup(base, path)
  {
    forall path | !IsKeyOf(path, front + [last], t) && !(cert.Some? && IsCertOf(path, front + [last], t))
      ensures Lookup(after, path) == Lookup(base, path)
    {
      PathOfAppended(path, front, last, t);
    }
  }

  /** The certificate issuance leaves for the canonical host: the signer's
      output, or, when the signer fails, whatever certificate was already on
      file (possibly one for an earlier key). */
  function IssuedCert(fs: FileSystem, r: Request, sign: Signer): Option<string>
  {
    match SignNewKey(r, sign)
    case Some(cert) => Some(cert)
    case None => Lookup(fs, CertPath(r.Hostname(), r.newType))
  }

  /** With old and new key types equal (which parsing guarantees), every
      hostname's key file holds the new key, every hostname's certificate is
      the issued one, no other file changes, and the response is the issued
      certificate (a missing one makes the final read fail). */
  lemma GrantedEffects(fs: FileSystem, r: Request, sign: Signer)
    requires r.newType == r.oldType && |r.hostnames| > 0
    ensures var t, g, cert := r.newType, Granted(fs, r, sign), IssuedCert(fs, r, sign);
      && (forall h :: h in r.hostnames ==> Lookup(g.files, KeyPath(h, t)) == Some(r.newPubkey))
      && (forall h :: h in r.hostnames && cert.Some? ==> Lookup(g.files, CertPath(h, t)) == cert)
      && (forall path :: !IsKeyOf(path, r.hostnames, t) && !(cert.Some? && IsCertOf(path, r.hostnames, t)) ==>
            Lookup(g.files, path) == Lookup(fs, path))
      && g.response == (if cert.Some? then Ok(cert.value) else Err(500, "No such file or directory"))
  {
    var t, h0, aliases := r.newType, r.Hostname(), r.hostnames[1..];
    var cert := IssuedCert(fs, r, sign);
    var canonical := CanonicalGrant(fs, r, sign);
    PathsDistinct(h0, t, h0, t);
    assert Lookup(canonical, KeyPath(h0, t)) == Some(r.newPubkey);
    assert Lookup(canonical, CertPath(h0, t)) == cert;
    forall path | path != KeyPath(h0, t) && (cert.Some? ==> path != CertPath(h0, t))
      ensures Lookup(canonical, path) == Lookup(fs, path)
    {
    }
    AliasGrantsEffects(canonical, r, aliases);
    assert r.hostnames == [h0] + aliases;
    forall path ensures IsKeyOf(path, r.hostnames, t) <==> path == KeyPath(h0, t) || IsKeyOf(path, aliases, t)
      ensures IsCertOf(path, r.hostnames, t) <==> path == CertPath(h0, t) || IsCertOf(path, aliases, t)
    {
      if IsKeyOf(path, aliases, t) {
        var h :| h in aliases && path == KeyPath(h, t);
        assert h in r.hostnames;
      }
      if IsCertOf(path, aliases, t) {
        var h :| h in aliases && path == CertPath(h, t);
        assert h in r.hostnames;
      }
    }
  }

  /** With old and new key types equal, issuance removes no file: the `rm`
      steps never fire. */
  lemma GrantKeepsEveryFile(fs: FileSystem, r: Request, sign: Signer)
    requires r.newType == r.oldType
    ensures forall path :: path in fs ==> path in Granted(fs, r, sign).files
  {
    if |r.hostnames| > 0 {
      GrantedEffects(fs, r, sign);
      var g, t := Granted(fs, r, sign), r.newType;
      forall path | path in fs ensures path in g.files {
        if !IsKeyOf(path, r.hostnames, t) && !(IssuedCert(fs, r, sign).Some? && IsCertOf(path, r.hostnames, t)) {
          assert Lookup(g.files, path) == Lookup(fs, path);
        } else if IsKeyOf(path, r.hostnames, t) {
          var h :| h in r.hostnames && path == KeyPath(h, t);
        } else {
          var h :| h in r.hostnames && path == CertPath(h, t);
        }
      }
    }
  }

  /** Granting the same request again, with a signer run that may differ
      from the first (ssh-keygen stamps every certificate with a fresh
      nonce and a validity window read from the clock): only the
      certificate files of the hostnames can change, and they change to the
      new certificate, which is also the answer. When the second signing
      fails, the store and the answer are exactly those of the first grant. */
  lemma RegrantReissuesOnlyCertificates(fs: FileSystem, r: Request, first: Signer, second: Signer)
    requires r.newType == r.oldType
    ensures var t, g1 := r.newType, Granted(fs, r, first);
      var g2, again := Granted(g1.files, r, second), SignNewKey(r, second);
      && (again.None? ==> g2 == g1)
      && (forall path :: path != CertPath(r.Hostname(), t) && !IsCertOf(path, r.hostnames, t) ==>
            Lookup(g2.files, path) == Lookup(g1.files, path))
      && (again.Some? && |r.hostnames| > 0 ==>
            && (forall h :: h in r.hostnames ==> Lookup(g2.files, CertPath(h, t)) == again)
            && g2.response == Ok(again.value))
  {
    var t, h0 := r.newType, r.Hostname();
    var g1 := Granted(fs, r, first);
    var g2 := Granted(g1.files, r, second);
    PathsDistinct(h0, t, h0, t);
    if |r.hostnames| > 0 {
      RegrantWithHostnames(fs, r, first, second);
    } else if SignNewKey(r, second).None? {
      LookupExtensional(g2.files, g1.files);
    }
  }

  lemma RegrantWithHostnames(fs: FileSystem, r: Request, first: Signer, second: Signer)
    requires r.newType == r.oldType && |r.hostnames| > 0
    ensures var t, g1 := r.newType, Granted(fs, r, first);
      var g2, again := Granted(g1.files, r, second), SignNewKey(r, second);
      && (again.None? ==> g2 == g1)
      && (forall path :: !IsCertOf(path, r.hostnames, t) ==> Lookup(g2.files, path) == Lookup(g1.files, path))
      && (again.Some? ==>
            && (forall h :: h in r.hostnames ==> Lookup(g2.files, CertPath(h, t)) == again)
            && g2.response == Ok(again.value))
  {
    var t, h0 := r.newType, r.Hostname();
    var g1 := Granted(fs, r, first);
    var g2 := Granted(g1.files, r, second);
    GrantedEffects(fs, r, first);
    GrantedEffects(g1.files, r, second);
    PathsDistinct(h0, t, h0, t);
    assert h0 in r.hostnames;
    assert !IsKeyOf(CertPath(h0, t), r.hostnames, t) by {
      forall h | h in r.hostnames ensures CertPath(h0, t) != KeyPath(h, t) {
        PathsDistinct(h, t, h0, t);
      }
    }
    var c1, c2 := IssuedCert(fs, r, first), IssuedCert(g1.files, r, second);
    assert Lookup(g1.files, CertPath(h0, t)) == c1 by {
      if c1.None? {
        assert !(c1.Some? && IsCertOf(CertPath(h0, t), r.hostnames, t));
      }
    }
    forall path | !IsCertOf(path, r.hostnames, t) ensures Lookup(g2.files, path) == Lookup(g1.files, path) {
      if IsKeyOf(path, r.hostnames, t) {
        var h :| h in r.hostnames && path == KeyPath(h, t);
      }
    }
    if SignNewKey(r, second).None? {
      assert c2 == c1;
      forall path ensures Lookup(g2.files, path) == Lookup(g1.files, path) {
        if IsKeyOf(path, r.hostnames, t) {
          var h :| h in r.hostnames && path == KeyPath(h, t);
        } else if c1.Some? && IsCertOf(path, r.hostnames, t) {
          var h :| h in r.hostnames && path == CertPath(h, t);
        }
      }
      LookupExtensional(g2.files, g1.files);
    }
  }

  /** Once a grant has written a key with no surrounding whitespace, a later
      request over any of the same hostnames that names that key as its old
      or new key is acceptable. */
  lemma AcceptableAfterGrant(fs: FileSystem, r: Request, sign: Signer, next: Request)
    requires r.newType == r.oldType && |r.hostnames| > 0
    requires Strip(r.newPubkey) == r.newPubkey && SevenBit(r.newPubkey)
    requires next.newType == r.newType
    requires forall h :: h in next.hostnames ==> h in r.hostnames
    requires next.oldPubkey == r.newPubkey || next.newPubkey == r.newPubkey
    ensures Acceptable(Granted(fs, r, sign).files, next)
  {
    GrantedEffects(fs, r, sign);
    var g := Granted(fs, r, sign);
    forall h | h in next.hostnames ensures KeyOnFileAllows(g.files, next, h) {
      assert Lookup(g.files, KeyPath(h, r.newType)) == Some(r.newPubkey);
    }
  }

  /** A key line ending in whitespace is stored as sent but read back
      stripped, so a later request naming it verbatim as its old key is
      refused by a host whose file holds it. */
  lemma PaddedKeyRefusedLater(fs: FileSystem, next: Request, h: string)
    requires h in next.hostnames
    requires Lookup(fs, KeyPath(h, next.newType)) == Some(next.oldPubkey)
    requires |next.oldPubkey| > 0 && IsStripSpace(next.oldPubkey[|next.oldPubkey| - 1])
    requires next.newPubkey != Strip(next.oldPubkey)
    ensures !Acceptable(fs, next)
  {
    StripIdentity(next.oldPubkey);
    assert !KeyOnFileAllows(fs, next, h);
  }

  /** As written: a key with a byte of 128 or more (a UTF-8 comment such
      as `josé@h`) is read back as UTF-8 and never equals a key from the
      binary body, so once granted, every later request over one of its
      hostnames is refused, even a retry of the same request. */
  lemma NonAsciiKeyLockedOut(fs: FileSystem, r: Request, sign: Signer, next: Request, i: nat)
    requires r.newType == r.oldType && |r.hostnames| > 0
    requires i < |r.newPubkey| && r.newPubkey[i] as int >= 128
    requires next.newType == r.newType
    requires exists h :: h in next.hostnames && h in r.hostnames
    ensures !Acceptable(Granted(fs, r, sign).files, next)
  {
    var files := Granted(fs, r, sign).files;
    var h :| h in next.hostnames && h in r.hostnames;
    GrantedKeyOnFile(fs, r, sign, h);
    StripKeepsHighByte(r.newPubkey, i);
    HighByteKeyRefuses(files, next, h);
  }

  /** A key on file that is not 7-bit refuses every request over its host. */
  lemma HighByteKeyRefuses(fs: FileSystem, next: Request, h: string)
    requires h in next.hostnames
    requires CurrentHostKey(fs, h, next.newType).Some? && !SevenBit(CurrentHostKey(fs, h, next.newType).value)
    ensures !Acceptable(fs, next)
  {
    assert !KeyOnFileAllows(fs, next, h);
  }

  /** After a grant, each hostname's key file reads back as the stripped new key. */
  lemma GrantedKeyOnFile(fs: FileSystem, r: Request, sign: Signer, h: string)
    requires r.newType == r.oldType && h in r.hostnames
    ensures CurrentHostKey(Granted(fs, r, sign).files, h, r.newType) == Some(Strip(r.newPubkey))
  {
    GrantedEffects(fs, r, sign);
    assert Lookup(Granted(fs, r, sign).files, KeyPath(h, r.newType)) == Some(r.newPubkey);
  }

  /** Corrected: the keys compared as bytes, whatever their encodings. */
  predicate BytesAcceptable(fs: FileSystem, r: Request)
  {
    forall h :: h in r.hostnames ==>
      var current := CurrentHostKey(fs, h, r.newType);
      current.None? || current.value == r.oldPubkey || current.value == r.newPubkey
  }

  /** With the byte comparison, any key without surrounding whitespace,
      7-bit or not, keeps its hosts open to the next rotation. */
  lemma BytesAcceptableAfterGrant(fs: FileSystem, r: Request, sign: Signer, next: Request)
    requires r.newType == r.oldType && |r.hostnames| > 0
    requires Strip(r.newPubkey) == r.newPubkey
    requires next.newType == r.newType
    requires forall h :: h in next.hostnames ==> h in r.hostnames
    requires next.oldPubkey == r.newPubkey || next.newPubkey == r.newPubkey
    ensures BytesAcceptable(Granted(fs, r, sign).files, next)
  {
    GrantedEffects(fs, r, sign);
    var g := Granted(fs, r, sign);
    forall h | h in next.hostnames ensures CurrentHostKey(g.files, h, next.newType) == Some(r.newPubkey) {
      assert Lookup(g.files, KeyPath(h, r.newType)) == Some(r.newPubkey);
    }
  }

  /** The two comparisons agree on 7-bit keys on file. */
  lemma BytesAcceptableAgreesOnSevenBit(fs: FileSystem, r: Request)
    requires forall h :: h in r.hostnames && CurrentHostKey(fs, h, r.newType).Some? ==>
      SevenBit(CurrentHostKey(fs, h, r.newType).value)
    ensures Acceptable(fs, r) <==> BytesAcceptable(fs, r)
  {
  }

  // ---------------------------------------------------------------------
  // The handler
  // ---------------------------------------------------------------------

  /** A request that fails to parse changes nothing and is answered with
      the parser's status; one that parses never loses a file, since both
      key types are ed25519. */
  lemma HandleNeverRemoves(fs: FileSystem, body: string, verify: Verifier, sign: Signer)
    ensures var o, p := Handle(fs, body, verify, sign), Parse(body, verify);
      && (p.result.Err? ==> o == Outcome(fs, Err(p.result.status, p.result.message)))
      && (forall path :: path in fs ==> path in o.files)
  {
    var p := Parse(body, verify);
    if p.result.Ok? && Acceptable(fs, p.result.value) {
      GrantKeepsEveryFile(fs, p.result.value, sign);
    }
  }

  /** Writing a proposal file changes no key or certificate file. */
  lemma ProposalTouchesNoKey(fs: FileSystem, hostname: string, keyType: string, contents: string)
    ensures var after := fs[ProposedPath(hostname, keyType) := contents];
      forall h, t :: Lookup(after, KeyPath(h, t)) == Lookup(fs, KeyPath(h, t))
                  && Lookup(after, CertPath(h, t)) == Lookup(fs, CertPath(h, t))
  {
    forall h, t ensures ProposedPath(hostname, keyType) != KeyPath(h, t)
                     && ProposedPath(hostname, keyType) != CertPath(h, t) {
      PathsDistinct(hostname, keyType, h, t);
    }
  }

  /** When some hostname holds a different key, the only write is the
      proposal file of the first hostname, holding the new key, and the
      answer is 409: no key or certificate file changes. */
  lemma RejectionWritesOnlyProposal(fs: FileSystem, body: string, verify: Verifier, sign: Signer)
    requires Parse(body, verify).result.Ok?
    requires !Acceptable(fs, Parse(body, verify).result.value)
    ensures var o, r := Handle(fs, body, verify, sign), Parse(body, verify).result.value;
      && o.response == Err(409, MismatchMessage)
      && o.files == fs[ProposedPath(r.Hostname(), r.newType) := r.newPubkey]
      && (forall h, t :: Lookup(o.files, KeyPath(h, t)) == Lookup(fs, KeyPath(h, t))
                      && Lookup(o.files, CertPath(h, t)) == Lookup(fs, CertPath(h, t)))
  {
    var r := Parse(body, verify).result.value;
    ProposalTouchesNoKey(fs, r.Hostname(), r.newType, r.newPubkey);
  }

  /** A certificate is handed out only for a request that parsed, passed
      both signature checks and is acceptable against the store; when the
      signer succeeds and there is a hostname, it is the signer's output on
      the request's own key, identity and hostnames. */
  lemma HandleGrantsOnlyAcceptable(fs: FileSystem, body: string, verify: Verifier, sign: Signer)
    ensures var o, p := Handle(fs, body, verify, sign), Parse(body, verify);
      o.response.Ok? ==>
        && p.result.Ok? && |p.calls| == 2 && verify(p.calls[0]) && verify(p.calls[1])
        && Acceptable(fs, p.result.value)
        && Some(o.response.value) == IssuedCert(fs, p.result.value, sign)
    ensures var o, p := Handle(fs, body, verify, sign), Parse(body, verify);
      p.result.Ok? && Acceptable(fs, p.result.value) && |p.result.value.hostnames| > 0 ==>
        var r := p.result.value;
        o.response == (match sign(r.newPubkey, r.identity, Join(r.hostnames, ","), CertValidity)
                       case Some(cert) => Ok(cert)
                       case None => if CertPath(r.Hostname(), r.newType) in fs
                                    then Ok(fs[CertPath(r.Hostname(), r.newType)])
                                    else Err(500, "No such file or directory"))
  {
    var p := Parse(body, verify);
    if p.result.Ok? && Acceptable(fs, p.result.value) && |p.result.value.hostnames| > 0 {
      GrantedEffects(fs, p.result.value, sign);
    }
  }

  /** A hostname line made only of commas gives no hostnames: the key is
      still written (under `hosts//`) and signed, then the loop raises. */
  lemma NoHostnamesStillWritesKey(fs: FileSystem, body: string, verify: Verifier, sign: Signer)
    requires Parse(body, verify).result.Ok?
    requires Parse(body, verify).result.value.hostnames == []
    ensures var o, r := Handle(fs, body, verify, sign), Parse(body, verify).result.value;
      && o.response == Err(500, "undefined method 'each' for nil")
      && Lookup(o.files, KeyPath("", r.newType)) == Some(r.newPubkey)
  {
    var r := Parse(body, verify).result.value;
    assert r.newType == r.oldType;
    assert Handle(fs, body, verify, sign) == Granted(fs, r, sign) by {
      assert Acceptable(fs, r);
    }
    GrantWithoutHostnames(fs, r, sign);
  }

  lemma GrantWithoutHostnames(fs: FileSystem, r: Request, sign: Signer)
    requires r.hostnames == [] && r.newType == r.oldType
    ensures var o := Granted(fs, r, sign);
      && o.response == Err(500, "undefined method 'each' for nil")
      && Lookup(o.files, KeyPath("", r.newType)) == Some(r.newPubkey)
  {
    PathsDistinct("", r.newType, "", r.newType);
  }

}
