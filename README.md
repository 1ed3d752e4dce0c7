# unityca host-key rotation, modelled in Dafny

`unityca.rb` is a small SSH certificate authority for host keys, served over HTTP.
A host rotates its key by posting a request with two sections separated by a blank line:

- a **signed section** naming its hostnames, a millisecond timestamp, the new public key and the old public key;
- an **unsigned section** holding two signatures over the signed section, one by each key.

The CA handles such a request in four steps:

1. It checks the request's shape.
2. It re-wraps each signature in the armored form `ssh-keygen -Y verify` expects, then runs the verifier for the new key and then for the old key.
3. It compares the hostnames against the keys it has on file under `hosts/`.
4. If every hostname agrees, it writes the new key for every hostname, signs it once, and copies the certificate to every further hostname. Otherwise it records the key as a proposal and refuses with 409.

A separate endpoint, `/revoked`, lists the revoked key lines found under `revoked/`.

The model has one Dafny module per part:

- `Results` holds the `Option` and `Result` types. A `Result` error carries the HTTP status and message that `reject`/`halt` answer with, or 500 for an exception Ruby raises.
- `RubyText` holds the Ruby string semantics the code relies on:
  - `String#split` with a string separator drops trailing empty fields;
  - `split(" ")` splits on runs of whitespace;
  - `strip` removes whitespace and NUL at both ends;
  - `downcase` is ASCII-only, because the request body is binary.
- `SignatureCodec` is `reconstitute_signature`.
- `RequestParser` covers `parse_request!` and the strings `valid_signature?` passes to `ssh-keygen -Y verify`. The verifier itself is a function parameter. `Parse` also returns the runs it asked for, in order.
- `HostStore` covers `current_host_key`, `acceptable?`, `grant_certificate` and `post '/host'`.
  - The store is a map from path to contents.
  - The CA signer (`ssh-keygen -h -s`) is a function parameter. It returns `None` when it fails.
  - `HostDirectory` is a class holding the store. Its methods change the store step by step, with a loop over the further hostnames.
  - Each method is proved equal to a pure specification (`Granted`, `Handle`), and the properties are proved about that specification.
- `Revocation` covers the `/revoked` handler, over the contents of the revocation files in listing order.

Some of the code's behaviour is easy to misread; the model follows the code as written:

- **Hostname case.** Hostnames keep the case they were sent in. Only the validity check looks at the downcased line.
- **Empty hostname list.** The list can be empty: a hostname line of `,` passes the check.
- **Revocation comment.** The revocation pattern requires the trailing comment.
- **Sort key.** The sort key is the part of the comment after `@`, reversed on `@`, not on dots. A comment made only of `@` makes Ruby raise rather than sort as empty.
- **Output order.** The comment at unityca.rb:196 announces a listing sorted by domain, but the sorted list is thrown away, so the listing comes out in file order.
- **Key comparison.** A key read back from a file is a UTF-8 string and the request's keys are binary, so Ruby's `==` finds them equal only when the key is 7-bit.

## Model

| member | source | states |
|---|---|---|
| `SignatureCodec.Reconstitute` | unityca.rb:69-74 | the armored signature, defined as the source builds it; its properties are in the `ChunksShape`, `ReconstituteLayout` and `UnwrapReconstitute` rows |
| `SignatureCodec.ChunksShape` | unityca.rb:70-72 | there are ceil(len/70) body lines; all but the last are exactly 70 characters and the last has 1 to 70; concatenated they give the signature back; an empty signature gives no body lines |
| `SignatureCodec.LineCountCovers` | unityca.rb:70-71 | the float ceiling is integer ceiling division: the lines hold the signature and one line fewer would not |
| `SignatureCodec.ReconstituteLayout` | unityca.rb:69-74 | the armored text is the BEGIN line, each body line followed by a newline, then the END line and a newline; an empty signature gives just BEGIN, END and the newlines |
| `SignatureCodec.UnwrapReconstitute` | unityca.rb:72-73 | taking the lines between BEGIN and END and joining them recovers any one-line signature: the wrapping loses nothing |
| `RubyText.FindFirst` | unityca.rb:79 | the first occurrence of the separator: one is found at the index, none starts earlier, and None means there is none |
| `RubyText.SplitFields` | unityca.rb:79 | the fields hold no separator and joining them with it gives the string back |
| `RubyText.Split` | unityca.rb:83-84 | `String#split`: no field holds the separator, and the last field is never empty because trailing empty fields are dropped |
| `RubyText.SplitFieldsStep` | unityca.rb:79 | every field boundary is the leftmost occurrence of the separator in what remains, so the fields are fixed by the string |
| `RubyText.SplitFirstField` | unityca.rb:79 | with two or more fields, the first field is the text before the first separator |
| `RubyText.SplitOfJoin` | unityca.rb:91 | splitting on a character what was joined with it gives the list back, provided no element holds it and the last is not empty |
| `RubyText.CharOfSplit` | unityca.rb:91 | every character of a field comes from the string and is not the separator |
| `RubyText.Words` | unityca.rb:102 | `split(" ")` yields only non-empty words without whitespace |
| `RubyText.WordsKeepNonSpace` | unityca.rb:102 | the words, run together, are exactly the non-whitespace bytes of the string, in order |
| `RubyText.SplitKeepsFields` | unityca.rb:83-84 | `split(sep)` is the list of fields between separators, less only empty fields at its end |
| `RubyText.WordsOfJoin` | unityca.rb:60 | whitespace-free words joined by single spaces split back into the same words |
| `RubyText.StripIdentity` | unityca.rb:115 | `strip` leaves a string unchanged exactly when neither end is whitespace or NUL |
| `RequestParser.SplitSections` | unityca.rb:79-89 | on success, the sections pass all four structural checks and the signed text is the body up to its first blank line plus a newline; every failure is a 400 |
| `RequestParser.SectionsOfBody` | unityca.rb:79-89 | the sections are cut from the body: the signed lines are the lines of the first `"\n\n"` part plus a newline, the unsigned lines are those of the second part, and any later part is ignored; conversely, a body whose first two parts pass the four checks is accepted |
| `RequestParser.KeyType` | unityca.rb:102-103 | the key type, defined as the source computes it; its properties are in the `KeyTypeOf`, `BuildRequest` and `KeyTypeRejectedBeforeVerifying` rows |
| `RequestParser.BuildRequest` | unityca.rb:91-106 | a request is built exactly when both key lines have key type `ed25519`, and then both recorded types are `ed25519` |
| `RequestParser.Authenticate` | unityca.rb:107-110 | the new key is verified first; the old key is verified only if the new one passed; the request is returned exactly when both pass; a failure is a 400 |
| `RequestParser.Parse` | unityca.rb:76-111 | a malformed body gets a 400 before any verifier run; there are at most two runs and the second happens only after the first passed; the result is Ok exactly when two runs were made and both passed; errors are 400 or 500; accepted requests have both key types `ed25519` |
| `RequestParser.ParseAcceptsExactly` | unityca.rb:91-110 | a body is accepted exactly when it is well formed, both key types are `ed25519` and both runs pass; the request then holds line 0 split on commas in its original case, the identity `unityca-<line 1>@<first hostname>`, line 1 as timestamp, and lines 2 and 3 verbatim as the keys |
| `RequestParser.KeyTypeRejectedBeforeVerifying` | unityca.rb:102-106 | a key that is not `ed25519` gives "only ed25519 supported" (400) before any run; a key line with no word gives a 500; neither runs the verifier |
| `RequestParser.SignedMessageIsPrefix` | unityca.rb:79-82 | every verifier run gets the body up to its first blank line, plus a newline, as its message |
| `RequestParser.VerifierRunsInOrder` | unityca.rb:107-108 | the first run uses the new key's signers line and the second the old key's; a failure names the key that failed |
| `RequestParser.NamespacesListEveryHostname` | unityca.rb:61 | both runs use the request's identity and the same namespace list, which splits back on commas into exactly the hostnames |
| `RequestParser.SignersLine` | unityca.rb:60 | the allowed-signers line, defined as the source builds it; its properties are in the `SignersLineDropsComment` and `VerifierRunsInOrder` rows |
| `RequestParser.VerificationFor` | unityca.rb:60-61 | the arguments of one verifier run, as the source passes them; their properties are in the `SignedMessageIsPrefix`, `VerifierRunsInOrder` and `NamespacesListEveryHostname` rows |
| `RequestParser.SignersLineDropsComment` | unityca.rb:60 | for a key of type and base64 words followed by nothing or by whitespace and any comment, the signers line is the identity, those two words and a newline; the rest is dropped |
| `RequestParser.SignaturesRecoverable` | unityca.rb:100-101 | the armored signatures are the reconstitution of the unsigned section's two lines, in order, and unwrap back to them |
| `RequestParser.HostnameCheckIgnoresCase` | unityca.rb:88 | the downcased line passes the check exactly when the line is non-empty and made of ASCII letters of either case, digits, commas, dots and dashes |
| `RequestParser.HostnameFieldsAreNames` | unityca.rb:88-91 | every hostname split from a line that passed the check is made of letters, digits, dots and dashes, with no comma and no slash |
| `RequestParser.HostnamesAreNames` | unityca.rb:88-91 | every hostname of an accepted request is made of letters, digits, dots and dashes; none holds a slash or a comma |
| `RequestParser.DotHostnamesPass` | unityca.rb:88-91 | the check still admits `..`, `.` and an empty field between commas, and they come out of the split as hostnames |
| `RequestParser.KeyTypeOf` | unityca.rb:102-103 | a key line `ssh-<t> ...` has key type `<t>` when `<t>` holds no dash |
| `HostStore.CertPathSpelledOut` | unityca.rb:130-131 | the certificate of `ssh_host_<t>_key.pub` is `ssh_host_<t>_key-cert.pub` in the same directory |
| `HostStore.PathsDistinct` | unityca.rb:128-131 | no key path is ever a certificate path, and no proposal path is either, whatever the hostnames and types |
| `HostStore.CurrentHostKey` | unityca.rb:113-116 | the stripped key on file, or nothing; its properties are in the `PaddedKeyRefusedLater` and `NonAsciiKeyLockedOut` rows |
| `HostStore.FileKeyEquals` | unityca.rb:121 | Ruby's `==` between a UTF-8 key read from a file and a binary key from the body: equal bytes and a 7-bit key; `BytesAcceptableAgreesOnSevenBit` shows it is plain byte equality on 7-bit keys |
| `HostStore.KeyOnFileAllows` | unityca.rb:119-121 | the `include?` test of one hostname; its properties are in the `AcceptableFrom` row |
| `HostStore.AcceptableFrom` | unityca.rb:118-125 | the loop answers true exactly when every hostname's stripped key on file is absent or `==` the old or the new key (same bytes, and 7-bit); it answers false exactly when some hostname holds a key `==` finds equal to neither |
| `HostStore.CanonicalGrant` | unityca.rb:128-137 | the canonical writes and removals as a function of the store; the `GrantCanonical` method is proved equal to it and `GrantedEffects` states its effects |
| `HostStore.AliasGrant` | unityca.rb:140-149 | one pass of the loop as a function of the store; the `GrantAlias` method is proved equal to it and `AliasGrantStep` states its effects |
| `HostStore.AliasGrants` | unityca.rb:139-150 | the loop over the further hostnames, in order; `AliasGrantsEffects` states its effects |
| `HostStore.Granted` | unityca.rb:127-153 | the whole of `grant_certificate`, with its two raising cases; the `GrantCertificate` method is proved equal to it and `GrantedEffects` states its effects |
| `HostStore.Handle` | unityca.rb:160-170 | `post '/host'` as a function of the store; the `PostHost` method is proved equal to it and the `HandleNeverRemoves`, `HandleGrantsOnlyAcceptable`, `RejectionWritesOnlyProposal` and `NoHostnamesStillWritesKey` rows state its properties |
| `HostStore.HostDirectory.GrantCanonical` | unityca.rb:128-137 | the store after writing the new key, signing it, and removing the old key and certificate when their paths differ |
| `HostStore.HostDirectory.GrantAlias` | unityca.rb:140-149 | the store after one pass of the loop: both copies, then the removals when the paths differ |
| `HostStore.HostDirectory.GrantCertificate` | unityca.rb:127-153 | the store and the answer are those of `Granted`; the loop over the further hostnames keeps the store equal to the fold of the passes so far |
| `HostStore.HostDirectory.PostHost` | unityca.rb:160-170 | the store and the answer are those of `Handle` |
| `HostStore.AliasGrantStep` | unityca.rb:146-149 | when the key types agree, one pass gives the host the canonical key, and the canonical certificate when there is one, and changes nothing else |
| `HostStore.AliasGrantsEffects` | unityca.rb:139-150 | when the key types agree, every further hostname gets the canonical key, and the canonical certificate when there is one; no other path changes and nothing is removed |
| `HostStore.GrantedEffects` | unityca.rb:127-153 | when the key types agree, every hostname's key file holds the new key and every hostname's certificate is the one issued; no other path changes; the answer is the issued certificate, or a 500 when there is none |
| `HostStore.GrantKeepsEveryFile` | unityca.rb:136-149 | when the key types agree, no file is removed: the `rm` steps never fire |
| `HostStore.RegrantReissuesOnlyCertificates` | unityca.rb:127-153 | granting the same request again, with any second signer run, changes no file but the hostnames' certificates, which become the new certificate, also the answer; when the second signing fails, store and answer are those of the first grant |
| `HostStore.AcceptableAfterGrant` | unityca.rb:113-125 | after a grant of a 7-bit key with no whitespace at its ends, a later request over some of the same hostnames that names that key as its old or new key is acceptable |
| `HostStore.NonAsciiKeyLockedOut` | unityca.rb:115-121 | once a key with a byte of 128 or more is granted, every later request over one of its hostnames is refused, whatever keys it names |
| `HostStore.BytesAcceptable` | unityca.rb:118-125 | the acceptance test with the keys compared as bytes; `BytesAcceptableAgreesOnSevenBit` shows it agrees with the source's on 7-bit keys |
| `HostStore.BytesAcceptableAfterGrant` | unityca.rb:113-125 | with the byte comparison, any granted key without surrounding whitespace, 7-bit or not, keeps its hosts open to a request naming it |
| `HostStore.BytesAcceptableAgreesOnSevenBit` | unityca.rb:118-125 | when every key on file for the hostnames is 7-bit, the source's test and the byte comparison agree |
| `HostStore.PaddedKeyRefusedLater` | unityca.rb:113-121 | a key stored with whitespace at its end is read back stripped, so a request naming it verbatim as its old key is refused |
| `HostStore.HandleNeverRemoves` | unityca.rb:160-170 | a request that fails to parse changes nothing and gets the parser's answer; no request ever removes a file, because parsing forces both types to be `ed25519` |
| `HostStore.ProposalTouchesNoKey` | unityca.rb:167 | writing a proposal changes no key or certificate file |
| `HostStore.RejectionWritesOnlyProposal` | unityca.rb:166-168 | when the store refuses the request, the only write is the first hostname's proposal file holding the new key, no key or certificate file changes, and the answer is 409 |
| `HostStore.HandleGrantsOnlyAcceptable` | unityca.rb:162-165 | a certificate is answered only for a request that parsed, passed both verifier runs and is acceptable; it is then the signer's output for the request's key, identity, hostnames and `+1w`, or, when the signer fails, the certificate already on file |
| `HostStore.NoHostnamesStillWritesKey` | unityca.rb:134-139 | with no hostnames, the key is still written under `hosts//` before the loop raises a 500 |
| `Revocation.RevocationLine` | unityca.rb:193 | the line pattern, as three space-separated fields of the allowed characters; its properties are in the `RevocationLineOf`, `RevocationLineParts`, `RevocationLineCharacters` and `CommentRequired` rows |
| `Revocation.RevocationLineOf` | unityca.rb:193 | `ssh-<name> <base64> <name>` matches for any type, body and comment of the allowed characters, and its three fields are those parts |
| `Revocation.RevocationLineParts` | unityca.rb:193 | every matching line is `ssh-`, a type, a space, a base64 body, a space and a comment |
| `Revocation.RevocationLineCharacters` | unityca.rb:193 | no matching line holds `=` or a newline |
| `Revocation.CommentRequired` | unityca.rb:193 | a key line with no comment never matches |
| `Revocation.Select` | unityca.rb:193 | the kept lines are exactly the matching lines of the input, and all of them match |
| `Revocation.SelectAppend` | unityca.rb:193 | selection keeps order: selecting from two lists joined is selecting from each and joining |
| `Revocation.RevokedLines` | unityca.rb:190-194 | every collected line matches the pattern |
| `Revocation.RevokedLinesAppend` | unityca.rb:190-194 | the lines of earlier files come first: collecting from two lists of files joined is collecting from each and joining |
| `Revocation.FileContributes` | unityca.rb:191-193 | a file contributes exactly its matching lines, in order, whether or not it ends in a newline |
| `Revocation.CommentKey` | unityca.rb:197 | `split("@")[1..-1].reverse.join(".")` of a comment, nil where Ruby raises; its properties are in the `NilKeyExactlyForAts` and `KeyOfUserAtDomain` rows |
| `Revocation.SortKey` | unityca.rb:197 | the `sort_by` block of a line; its properties are in the `SortKeyOfLine` and `NilKeyExactlyForAts` rows |
| `Revocation.JoinedListing` | unityca.rb:197-198 | the answer for the collected lines: their join, or a 500 when a sort key is nil |
| `Revocation.RevokedListing` | unityca.rb:190-198 | what `get '/revoked'` answers; its properties are in the `JoinedListingFails`, `ListingSplitsBack` and findings rows |
| `Revocation.SortKeyOfLine` | unityca.rb:197 | the sort key of a matching line is computed from its comment |
| `Revocation.NilKeyExactlyForAts` | unityca.rb:197 | the key is nil (Ruby raises) exactly when the comment is made only of `@` |
| `Revocation.JoinedListingFails` | unityca.rb:197-198 | the answer fails with a 500 exactly when some collected line's comment is made only of `@` |
| `Revocation.ListingSplitsBack` | unityca.rb:198 | a successful answer splits on newlines into exactly the collected lines, in file order and then line order, and does not end in a newline |
| `Revocation.KeyOfUserAtDomain` | unityca.rb:197 | `ssh-<t> <b> <user>@<domain>` matches and its sort key is the domain |
| `Revocation.DiscardedSortKeepsFileOrder` | unityca.rb:197-198 | two one-line files whose keys are out of order are listed in file order, and that listing is not in domain order |
| `Revocation.AtCommentFailsListing` | unityca.rb:197 | one line with an `@`-only comment makes the whole listing a 500, whatever lines come before it |
| `Revocation.InsertKeepsSorted` | unityca.rb:196-197 | inserting a line keeps a list in domain-key order |
| `Revocation.SortByDomainSorted` | unityca.rb:196-197 | the corrected sort puts the lines in domain-key order |
| `Revocation.SortByDomain` | unityca.rb:196-197 | the corrected sort is a permutation of its input |
| `Revocation.SortedListingIsPermutation` | unityca.rb:196-198 | the corrected listing splits into the collected lines, each exactly as often, in domain-key order |
| `Revocation.CorrectedOrder` | unityca.rb:196-198 | the corrected listing puts two out-of-order lines in domain order |
| `Revocation.CorrectedListsAtComment` | unityca.rb:197 | the corrected listing lists a line with an `@`-only comment instead of failing |
| `Revocation.LexLeTotal` | unityca.rb:197 | string order (`<=>`) is total |
| `Revocation.LexLeTransitive` | unityca.rb:197 | string order (`<=>`) is transitive |

## Left out

- The `ssh-keygen -Y verify` and `ssh-keygen -h -s` subprocesses are left out. They are a predicate and a function passed in, and only the strings handed to them are modelled. The random temporary file names, writing those files and unlinking them are left out with them.
- How the certificate depends on the key and the CA key is left out. The signer is any function, so the proofs hold for every signer.
- HostStore.RegrantReissuesOnlyCertificates: takes the two signer runs as two independent functions, since `ssh-keygen` puts a random nonce and a clock-based `+1w` validity window into every certificate; the model has no clock and no randomness, so it does not say what the new certificate holds.
- `Time.at` of the timestamp is left out: its value is never used. The timestamp is kept as its digits.
- The SHA-256 digest of the body is left out: it is never used.
- `logmsg`, the Sinatra routing, the redirect and the `send_file` endpoints are left out: they are logging and HTTP plumbing.
- The PID file and the startup `chdir`/`mkdir` are left out: they are process lifetime only.
- Directories are left out.
  - They are implicit in the store's paths, so `mkdir -p` is not modelled.
  - Writing a proposal under a hostname whose directory does not exist raises in Ruby (a 500). The model always writes it.
  - Path normalisation is not modelled either: paths are compared as strings.
  - The hostname check does not confine keys to `hosts/<name>/`. A hostname `..` passes it (`RequestParser.DotHostnamesPass`), so its key path `hosts/../ssh_host_<t>_key.pub` names a file in the CA's working directory. A hostname `.` or an empty field (a line like `a,,b`) names `hosts/` itself. The model keeps these as distinct strings and does not capture that they alias other directories.
- Reading a directory under `revoked/` as a file is left out: the model takes the files as given contents.
- The order in which `Dir.glob` lists the revocation files is left out: the files are given as a sequence, in the glob's order.
- Characters stand for bytes. Ruby treats the request body as binary, so `downcase` and the regular expressions on it are ASCII. Key files are read as UTF-8, the usual default external encoding, and their comparison with the body's keys at unityca.rb:121 is modelled by `HostStore.FileKeyEquals`. Other locales are left out: under US-ASCII a non-ASCII key fails differently. Unicode is not modelled.
- Encoding errors in files are left out. Key files (unityca.rb:115) and revocation files (unityca.rb:191) are read in the default external encoding, and `strip` and `match` raise on an invalid byte sequence, which gives a 500. A granted key's comment is never checked, so such a key makes every later request for its host a 500, and one such line under `revoked/` makes the listing a 500. `CurrentHostKey` and `RevocationLine` never fail, so the model does not show this.
- Concurrent requests are left out: each handler runs alone on the store.
- HostStore.AcceptableAfterGrant: requires the new key to have no whitespace at either end, because `strip` on reading would otherwise change it (see `HostStore.PaddedKeyRefusedLater`), and to be 7-bit, because `==` would otherwise refuse it (see `HostStore.NonAsciiKeyLockedOut`).
- HostStore.GrantedEffects: is stated only for equal old and new key types, the only case parsing lets through. The removals for differing types are modelled in `CanonicalGrant` and `AliasGrant` but nothing is proved about them.

## Findings

| source | as written | input that shows it | evidently intended | confidence | as-written member | corrected member |
|---|---|---|---|---|---|---|
| unityca.rb:196-198 | `sort_by` returns a new array that is dropped, so `join` uses the unsorted lines: the listing is in file order | two files, `ssh-ed25519 AAAA root@web.example` then `ssh-ed25519 AAAA root@db.example`: `web` is listed first | the lines listed in domain-key order, as the comment above the sort says (`sort_by!`, or joining the sorted array) | high; not executed | `Revocation.DiscardedSortKeepsFileOrder` | `Revocation.SortedListingIsPermutation` |
| unityca.rb:115-121 | the key read back from the file is a UTF-8 string and the request's keys are binary strings; `include?` uses `==`, which finds a UTF-8 and a binary string with a byte of 128 or more unequal even when the bytes agree, so such a host is refused with 409 on every later request | a grant of `ssh-ed25519 AAAA josé@h` for host `h`, then the same request again | the keys compared as bytes (reading the file with `IO.binread`, or comparing `.b` strings), so a retry or the next rotation is accepted | medium; not executed | `HostStore.NonAsciiKeyLockedOut` | `HostStore.BytesAcceptableAfterGrant` |
| unityca.rb:197 | a comment made only of `@` splits to an empty array, `[1..-1]` of it is nil, and `nil.reverse` raises, so the whole listing fails with a 500 | a file holding `ssh-ed25519 AAAA @` | such a line listed like any other, sorting with an empty key | medium; not executed | `Revocation.AtCommentFailsListing` | `Revocation.CorrectedListsAtComment` |
