/**
 * `proofToSolidityInput`: a snarkjs Groth16 proof flattened into one
 * "0x"-prefixed string of eight 32-byte words, in the order the
 * alt_bn128 verifier takes them, and a decoder that splits it back.
 */
module Calldata {
  import opened Wrappers
  import opened Hex

  /**
   * A proof as snarkjs emits it: pi_a and pi_c are G1 points given by
   * (possibly projective) coordinate lists, pi_b a G2 point whose
   * coordinates are pairs [re, im] of F_q2 elements.
   */
  datatype SnarkProof = SnarkProof(piA: seq<nat>, piB: seq<seq<nat>>, piC: seq<nat>)

  /**
   * Reading a missing coordinate throws: a property access on `undefined`
   * (a missing pi_b pair) or `BigInt(undefined)` (a missing entry).
   */
  datatype EncodeError = MissingCoordinate

  /** Every coordinate the serialiser reads is present. */
  predicate HasCoordinates(p: SnarkProof)
  {
    |p.piA| >= 2 && |p.piB| >= 2 && |p.piB[0]| >= 2 && |p.piB[1]| >= 2 && |p.piC| >= 2
  }

  /** The eight numbers of the array literal, in its order. */
  function Words(p: SnarkProof): seq<nat>
    requires HasCoordinates(p)
  {
    [p.piA[0], p.piA[1], p.piB[0][1], p.piB[0][0], p.piB[1][1], p.piB[1][0], p.piC[0], p.piC[1]]
  }

  /** `ws.map(toHex32).join("")`. */
  function JoinHex(ws: seq<nat>): string
  {
    if ws == [] then "" else Hex32(ws[0]) + JoinHex(ws[1..])
  }

  function ProofToSolidityInput(p: SnarkProof): (r: Result<string, EncodeError>)
    ensures r.Success? <==> HasCoordinates(p)
    ensures r.Success? ==> |r.value| >= 2 && r.value[..2] == "0x"
  {
    if HasCoordinates(p) then Success("0x" + JoinHex(Words(p))) else Failure(MissingCoordinate)
  }

  // ---------------------------------------------------------------------
  // The verifier's point encoding (EIP-197, "Encoding"): a G1 point is
  // (x, y); a G2 point is (x_im, x_re, y_im, y_re), imaginary part first.

  datatype Fq2 = Fq2(re: nat, im: nat)
  datatype G1 = G1(x: nat, y: nat)
  datatype G2 = G2(x: Fq2, y: Fq2)
  datatype Points = Points(a: G1, b: G2, c: G1)

  /** The affine points a snarkjs proof denotes; pi_b[i] is [re, im]. */
  function AsPoints(p: SnarkProof): Points
    requires HasCoordinates(p)
  {
    Points(G1(p.piA[0], p.piA[1]),
           G2(Fq2(p.piB[0][0], p.piB[0][1]), Fq2(p.piB[1][0], p.piB[1][1])),
           G1(p.piC[0], p.piC[1]))
  }

  function VerifierWords(pts: Points): seq<nat>
  {
    [pts.a.x, pts.a.y, pts.b.x.im, pts.b.x.re, pts.b.y.im, pts.b.y.re, pts.c.x, pts.c.y]
  }

  /** The literal's order is exactly the EIP-197 order of the proof's points. */
  lemma WordsAreVerifierOrder(p: SnarkProof)
    requires HasCoordinates(p)
    ensures Words(p) == VerifierWords(AsPoints(p))
  {
  }

  // ---------------------------------------------------------------------
  // Decoding

  /** Splits into 64-digit chunks and reads each as hex. */
  function SplitWords(t: string): (r: Option<seq<nat>>)
    ensures r.Some? ==> |t| == WordDigits * |r.value|
    decreases |t|
  {
    if t == [] then Some([])
    else if |t| < WordDigits then None
    else
      match FromHex(t[..WordDigits])
      case None => None
      case Some(w) =>
        match SplitWords(t[WordDigits..])
        case None => None
        case Some(ws) => Some([w] + ws)
  }

  function DecodeCalldata(s: string): Option<seq<nat>>
  {
    if |s| >= 2 && s[..2] == "0x" then SplitWords(s[2..]) else None
  }

  /** The affine proof with the two pi_b swaps undone. */
  function ProofOfWords(ws: seq<nat>): SnarkProof
    requires |ws| == 8
  {
    SnarkProof([ws[0], ws[1]], [[ws[3], ws[2]], [ws[5], ws[4]]], [ws[6], ws[7]])
  }

  function DecodeProof(s: string): Option<SnarkProof>
  {
    match DecodeCalldata(s)
    case Some(ws) => if |ws| == 8 then Some(ProofOfWords(ws)) else None
    case None => None
  }

  /** The part of a proof the serialiser reads: two coordinates of each list. */
  function Affine(p: SnarkProof): SnarkProof
    requires HasCoordinates(p)
  {
    SnarkProof(p.piA[..2], [p.piB[0][..2], p.piB[1][..2]], p.piC[..2])
  }

  /** Every number fits a 256-bit word. */
  predicate AllFit(ws: seq<nat>)
  {
    forall i :: 0 <= i < |ws| ==> ws[i] < Pow2(256)
  }

  // ---------------------------------------------------------------------
  // Properties

  /** Each word takes at least 64 digits, and exactly 64 when every number fits. */
  lemma {:induction false} JoinHexLength(ws: seq<nat>)
    ensures |JoinHex(ws)| >= WordDigits * |ws|
    ensures |JoinHex(ws)| == WordDigits * |ws| <==> AllFit(ws)
  {
    if ws != [] {
      JoinHexLength(ws[1..]);
      Hex32Length(ws[0]);
      Hex32Width(ws[0]);
      if AllFit(ws[1..]) && ws[0] < Pow2(256) {
        forall i | 0 <= i < |ws| ensures ws[i] < Pow2(256) {
          if i > 0 { assert ws[i] == ws[1..][i - 1]; }
        }
      }
      if AllFit(ws) {
        assert AllFit(ws[1..]) by {
          forall i | 0 <= i < |ws| - 1 ensures ws[1..][i] < Pow2(256) {
            assert ws[1..][i] == ws[i + 1];
          }
        }
      }
    }
  }

  /** When every number fits, the i-th 64-digit chunk is toHex32 of the i-th number. */
  lemma {:induction false} JoinHexChunk(ws: seq<nat>, i: nat)
    requires AllFit(ws) && i < |ws|
    ensures |JoinHex(ws)| == WordDigits * |ws|
    ensures JoinHex(ws)[WordDigits * i .. WordDigits * (i + 1)] == Hex32(ws[i])
  {
    JoinHexLength(ws);
    Hex32Width(ws[0]);
    var rest := ws[1..];
    assert AllFit(rest) by {
      forall k | 0 <= k < |rest| ensures rest[k] < Pow2(256) {
        assert rest[k] == ws[k + 1];
      }
    }
    if i > 0 {
      JoinHexChunk(rest, i - 1);
      assert rest[i - 1] == ws[i];
      var h := Hex32(ws[0]);
      assert JoinHex(ws) == h + JoinHex(rest);
      assert JoinHex(ws)[WordDigits * i .. WordDigits * (i + 1)]
          == JoinHex(rest)[WordDigits * (i - 1) .. WordDigits * i];
    }
  }

  /** Reading the chunks back recovers the numbers, in order. */
  lemma {:induction false} SplitJoin(ws: seq<nat>)
    requires AllFit(ws)
    ensures SplitWords(JoinHex(ws)) == Some(ws)
  {
    if ws != [] {
      var rest := ws[1..];
      assert AllFit(rest) by {
        forall k | 0 <= k < |rest| ensures rest[k] < Pow2(256) {
          assert rest[k] == ws[k + 1];
        }
      }
      Hex32Width(ws[0]);
      var h := Hex32(ws[0]);
      var t := JoinHex(ws);
      assert t == h + JoinHex(rest);
      assert t[..WordDigits] == h;
      assert t[WordDigits..] == JoinHex(rest);
      Hex32RoundTrip(ws[0]);
      SplitJoin(rest);
      assert [ws[0]] + rest == ws;
    }
  }

  /** The output is 2 + 8 * 64 = 514 characters exactly when every coordinate is below 2^256. */
  lemma EncodedLength(p: SnarkProof)
    requires HasCoordinates(p)
    ensures |ProofToSolidityInput(p).value| >= 2 + 8 * WordDigits
    ensures |ProofToSolidityInput(p).value| == 2 + 8 * WordDigits <==> AllFit(Words(p))
  {
    JoinHexLength(Words(p));
  }

  /**
   * When every coordinate fits: "0x", then chunk i (64 digits) is
   * toHex32 of pi_a[0], pi_a[1], pi_b[0][1], pi_b[0][0], pi_b[1][1],
   * pi_b[1][0], pi_c[0], pi_c[1] for i = 0 .. 7.
   */
  lemma EncodedChunks(p: SnarkProof, i: nat)
    requires HasCoordinates(p) && AllFit(Words(p)) && i < 8
    ensures |ProofToSolidityInput(p).value| == 2 + 8 * WordDigits
    ensures ProofToSolidityInput(p).value[2 + WordDigits * i .. 2 + WordDigits * (i + 1)]
         == Hex32(Words(p)[i])
  {
    JoinHexChunk(Words(p), i);
    var s := ProofToSolidityInput(p).value;
    assert s == "0x" + JoinHex(Words(p));
    assert s[2 + WordDigits * i .. 2 + WordDigits * (i + 1)]
        == JoinHex(Words(p))[WordDigits * i .. WordDigits * (i + 1)];
  }

  /** Decoding the output gives back the eight numbers in array order. */
  lemma DecodeEncodedWords(p: SnarkProof)
    requires HasCoordinates(p) && AllFit(Words(p))
    ensures DecodeCalldata(ProofToSolidityInput(p).value) == Some(Words(p))
  {
    var s := ProofToSolidityInput(p).value;
    assert s[2..] == JoinHex(Words(p));
    SplitJoin(Words(p));
  }

  /** Decoding and undoing the swaps recovers the affine part of the proof. */
  lemma DecodeEncodedProof(p: SnarkProof)
    requires HasCoordinates(p) && AllFit(Words(p))
    ensures DecodeProof(ProofToSolidityInput(p).value) == Some(Affine(p))
  {
    DecodeEncodedWords(p);
    assert p.piA[..2] == [p.piA[0], p.piA[1]];
    assert p.piB[0][..2] == [p.piB[0][0], p.piB[0][1]];
    assert p.piB[1][..2] == [p.piB[1][0], p.piB[1][1]];
    assert p.piC[..2] == [p.piC[0], p.piC[1]];
  }

  /** Two proofs with the same calldata agree on every coordinate the verifier sees. */
  lemma EncodingInjective(p: SnarkProof, q: SnarkProof)
    requires HasCoordinates(p) && AllFit(Words(p)) && HasCoordinates(q) && AllFit(Words(q))
    requires ProofToSolidityInput(p) == ProofToSolidityInput(q)
    ensures AsPoints(p) == AsPoints(q)
  {
    DecodeEncodedWords(p);
    DecodeEncodedWords(q);
    assert Words(p) == Words(q);
  }
}
