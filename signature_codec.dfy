/** `reconstitute_signature`: a signature travels in a request as one line
    of base64; `ssh-keygen -Y verify` wants it armored, 70 characters per
    line between a BEGIN and an END line. */
module SignatureCodec {
  import opened RubyText

  const Header := "-----BEGIN SSH SIGNATURE-----"
  const Footer := "-----END SSH SIGNATURE-----"
  const LineLength := 70

  /** `(len / 70.0).ceil`: the float division is only a spelling of integer
      ceiling division. */
  function LineCount(len: nat): nat
  {
    (len + LineLength - 1) / LineLength
  }

  function Min(a: int, b: int): int
  {
    if a <= b then a else b
  }

  /** Every line the count asks for starts inside the signature. */
  lemma LineStartInside(len: nat, n: nat)
    requires n < LineCount(len)
    ensures LineLength * n < len
  {
    var q := LineCount(len);
    assert LineLength * q <= len + LineLength - 1;
    assert n <= q - 1;
  }

  /** The count is exactly enough lines to hold the signature. */
  lemma LineCountCovers(len: nat)
    ensures len <= LineLength * LineCount(len)
    ensures len > 0 ==> LineLength * (LineCount(len) - 1) < len
  {
    if len > 0 { LineStartInside(len, LineCount(len) - 1); }
  }

  /** `signature[70*n ... 70*(n+1)]`, clipped at the end of the string. */
  function ChunkAt(s: string, n: nat): string
    requires n < LineCount(|s|)
  {
    LineStartInside(|s|, n);
    s[LineLength * n..Min(LineLength * (n + 1), |s|)]
  }

  /** `num_lines.times.map { ... }`. */
  function Chunks(s: string): seq<string>
  {
    seq(LineCount(|s|), n requires 0 <= n < LineCount(|s|) => ChunkAt(s, n))
  }

  /** `["-----BEGIN SSH SIGNATURE-----", *lines, "-----END SSH SIGNATURE-----", ""].join("\n")`. */
  function Reconstitute(signature: string): string
  {
    Join([Header] + Chunks(signature) + [Footer, ""], "\n")
  }

  /** The lines concatenated, without separators. */
  function Concat(ls: seq<string>): string
  {
    if |ls| == 0 then "" else Concat(ls[..|ls| - 1]) + ls[|ls| - 1]
  }

  /** The lines, each followed by a newline. */
  function Lines(ls: seq<string>): string
  {
    if |ls| == 0 then "" else ls[0] + "\n" + Lines(ls[1..])
  }

  /** What a reader of the armored text recovers: the lines between the
      first and the last, joined without their newlines. */
  function Unwrap(armored: string): string
  {
    var lines := Split(armored, "\n");
    if |lines| < 2 then "" else Concat(lines[1..|lines| - 1])
  }

  lemma {:induction false} ConcatChunksPrefix(s: string, k: nat)
    requires k <= LineCount(|s|)
    ensures Concat(Chunks(s)[..k]) == s[..Min(LineLength * k, |s|)]
    decreases k
  {
    if k > 0 {
      var cs := Chunks(s);
      ConcatChunksPrefix(s, k - 1);
      assert cs[..k][..k - 1] == cs[..k - 1];
      LineStartInside(|s|, k - 1);
      assert Min(LineLength * (k - 1), |s|) == LineLength * (k - 1);
      assert cs[k - 1] == s[LineLength * (k - 1)..Min(LineLength * k, |s|)];
      assert s[..LineLength * (k - 1)] + s[LineLength * (k - 1)..Min(LineLength * k, |s|)]
          == s[..Min(LineLength * k, |s|)];
    }
  }

  /** The body lines of a re-wrapped signature: all but the last are exactly
      70 characters, the last has 1 to 70, and together they are the
      signature again; an empty signature has no body lines. */
  lemma ChunksShape(s: string)
    ensures |Chunks(s)| == LineCount(|s|)
    ensures forall k :: 0 <= k < |Chunks(s)| - 1 ==> |Chunks(s)[k]| == LineLength
    ensures |Chunks(s)| > 0 ==> 1 <= |Chunks(s)[|Chunks(s)| - 1]| <= LineLength
    ensures Concat(Chunks(s)) == s
    ensures Chunks(s) == [] <==> s == ""
  {
    var cs := Chunks(s);
    forall k | 0 <= k < |cs| - 1 ensures |cs[k]| == LineLength {
      LineStartInside(|s|, k + 1);
    }
    LineCountCovers(|s|);
    if |cs| > 0 {
      LineStartInside(|s|, |cs| - 1);
    }
    ConcatChunksPrefix(s, |cs|);
    assert cs[..|cs|] == cs;
  }

  lemma {:induction false} JoinFramed(h: string, ls: seq<string>, f: string)
    ensures Join([h] + ls + [f, ""], "\n") == h + "\n" + Lines(ls) + f + "\n"
    decreases |ls|
  {
    if |ls| == 0 {
      assert [h] + ls + [f, ""] == [h] + [f, ""];
      JoinCons(h, [f, ""], "\n");
      JoinCons(f, [""], "\n");
    } else {
      assert [h] + ls + [f, ""] == [h] + ([ls[0]] + ls[1..] + [f, ""]);
      JoinCons(h, [ls[0]] + ls[1..] + [f, ""], "\n");
      JoinFramed(ls[0], ls[1..], f);
    }
  }

  /** The armored text is the BEGIN line, the body lines each ended by a
      newline, and the END line with its newline. */
  lemma ReconstituteLayout(s: string)
    ensures Reconstitute(s) == Header + "\n" + Lines(Chunks(s)) + Footer + "\n"
    ensures s == "" ==> Reconstitute(s) == Header + "\n" + Footer + "\n"
  {
    JoinFramed(Header, Chunks(s), Footer);
    ChunksShape(s);
  }

  /** Body lines are pieces of the signature, so they hold no newline when
      it holds none. */
  lemma ChunksWithoutNewline(s: string)
    requires '\n' !in s
    ensures forall k :: 0 <= k < |Chunks(s)| ==> '\n' !in Chunks(s)[k]
  {
    forall k | 0 <= k < |Chunks(s)| ensures '\n' !in Chunks(s)[k] {
      LineStartInside(|s|, k);
      var a, b := LineLength * k, Min(LineLength * (k + 1), |s|);
      assert Chunks(s)[k] == s[a..b];
      assert forall j :: 0 <= j < b - a ==> s[a..b][j] == s[a + j];
    }
  }

  /** Re-wrapping loses nothing: a signature line (which holds no newline,
      being one line of the request) is recovered from its armored form. */
  lemma UnwrapReconstitute(s: string)
    requires '\n' !in s
    ensures Unwrap(Reconstitute(s)) == s
  {
    var cs := Chunks(s);
    var xs := [Header] + cs + [Footer, ""];
    ChunksWithoutNewline(s);
    assert forall i :: 0 <= i < |xs| ==> '\n' !in xs[i] by {
      forall i | 0 <= i < |xs| ensures '\n' !in xs[i] {
        if 1 <= i <= |cs| { assert xs[i] == cs[i - 1]; }
      }
    }
    SplitFieldsOfJoin(xs, '\n');
    assert DropTrailingEmpty(xs) == [Header] + cs + [Footer] by {
      assert xs[..|xs| - 1] == [Header] + cs + [Footer];
    }
    var lines := [Header] + cs + [Footer];
    assert lines[1..|lines| - 1] == cs;
    ChunksShape(s);
  }

}
