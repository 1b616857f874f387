/*
 * Delimiter framing over byte sequences: where the frame delimiter occurs,
 * how a byte sequence splits into pieces and an unscanned tail, and the
 * properties of that split. The fifo input plugin's scan loop (module
 * FifoInput) is proved against these definitions.
 */
module FrameScan {

  newtype byte = x: int | 0 <= x < 256

  datatype Option<T> = None | Some(value: T)

  /** The pieces cut off by delimiter occurrences (empty ones included, each
      without its delimiter) and the bytes after the last occurrence. */
  datatype Split = Split(pieces: seq<seq<byte>>, tail: seq<byte>)

  /** The delimiter `d` occurs in `s` starting at index `j`. */
  predicate MatchesAt(s: seq<byte>, d: seq<byte>, j: int)
  {
    0 <= j && j + |d| <= |s| && s[j..j + |d|] == d
  }

  /** No occurrence of `d` starts in `s` before index `k`. */
  predicate NoMatchBefore(s: seq<byte>, d: seq<byte>, k: int)
  {
    forall j :: 0 <= j < k ==> !MatchesAt(s, d, j)
  }

  /** `d` does not occur in `s` at all. */
  ghost predicate NoMatch(s: seq<byte>, d: seq<byte>)
  {
    forall j :: !MatchesAt(s, d, j)
  }

  /** The first occurrence of `d` in `s` at or after index `k`. */
  function FirstMatchFrom(s: seq<byte>, d: seq<byte>, k: nat): (r: Option<nat>)
    decreases |s| - k
    ensures r.Some? ==> k <= r.value && MatchesAt(s, d, r.value)
    ensures r.Some? ==> forall j :: k <= j < r.value ==> !MatchesAt(s, d, j)
    ensures r.None? ==> forall j :: k <= j ==> !MatchesAt(s, d, j)
  {
    if |s| < k + |d| then None
    else if s[k..k + |d|] == d then Some(k)
    else FirstMatchFrom(s, d, k + 1)
  }

  /** The first occurrence of `d` in `s`, as a byte-string search returns it. */
  function FirstMatch(s: seq<byte>, d: seq<byte>): (r: Option<nat>)
    ensures r.Some? ==> MatchesAt(s, d, r.value) && NoMatchBefore(s, d, r.value)
    ensures r.None? ==> NoMatch(s, d)
  {
    FirstMatchFrom(s, d, 0)
  }

  /** Cuts `s` at each delimiter occurrence, always taking the first
      occurrence after the previous cut. */
  function Scan(s: seq<byte>, d: seq<byte>): (r: Split)
    requires |d| > 0
    decreases |s|
    ensures NoMatch(r.tail, d)
  {
    match FirstMatch(s, d)
    case None => Split([], s)
    case Some(i) =>
      var rest := Scan(s[i + |d|..], d);
      Split([s[..i]] + rest.pieces, rest.tail)
  }

  /** Each piece followed by its delimiter, concatenated. */
  function Joined(ps: seq<seq<byte>>, d: seq<byte>): seq<byte>
  {
    if ps == [] then [] else ps[0] + d + Joined(ps[1..], d)
  }

  /** The pieces that are published as frames: the non-empty ones, in order. */
  function NonEmpty(ps: seq<seq<byte>>): (r: seq<seq<byte>>)
    ensures |r| <= |ps|
    ensures forall k :: 0 <= k < |r| ==> |r[k]| > 0
    ensures forall p :: p in r <==> p in ps && p != []
  {
    if ps == [] then []
    else if ps[0] == [] then NonEmpty(ps[1..])
    else [ps[0]] + NonEmpty(ps[1..])
  }

  /** In `p + d`, the first occurrence of `d` is the one right after `p`. */
  predicate EndsAtFirstDelimiter(p: seq<byte>, d: seq<byte>)
  {
    NoMatchBefore(p + d, d, |p|)
  }

  /** `ps` and `t` describe `s` as the scan sees it: `s` is every piece
      followed by the delimiter, then `t`; each piece ends where the first
      delimiter occurrence after it begins; `t` holds no occurrence. */
  ghost predicate IsFraming(s: seq<byte>, d: seq<byte>, ps: seq<seq<byte>>, t: seq<byte>)
  {
    && s == Joined(ps, d) + t
    && (forall k :: 0 <= k < |ps| ==> EndsAtFirstDelimiter(ps[k], d))
    && NoMatch(t, d)
  }

  /** Whether `d` occurs at `j` depends only on the bytes of its window. */
  lemma MatchesAtPrefix(s: seq<byte>, u: seq<byte>, d: seq<byte>, j: int)
    requires j + |d| <= |s|
    ensures MatchesAt(s + u, d, j) == MatchesAt(s, d, j)
  {
    if 0 <= j {
      assert (s + u)[j..j + |d|] == s[j..j + |d|];
    }
  }

  /** Cutting `s` around an occurrence of `d` at `i`. */
  lemma SplitAtMatch(s: seq<byte>, d: seq<byte>, i: nat)
    requires MatchesAt(s, d, i)
    ensures s == s[..i] + d + s[i + |d|..]
  {
    assert s == s[..i] + s[i..];
    assert s[i..] == s[i..i + |d|] + s[i + |d|..];
  }

  /** An occurrence with none before it is the one the search finds. */
  lemma FirstMatchIs(s: seq<byte>, d: seq<byte>, i: nat)
    requires MatchesAt(s, d, i) && NoMatchBefore(s, d, i)
    ensures FirstMatch(s, d) == Some(i)
  {
  }

  /** One step of the scan: the piece up to the first occurrence, then the
      scan of what follows that occurrence. */
  lemma ScanAtFirstMatch(s: seq<byte>, d: seq<byte>, i: nat)
    requires |d| > 0 && FirstMatch(s, d) == Some(i)
    ensures Scan(s, d) == Split([s[..i]] + Scan(s[i + |d|..], d).pieces, Scan(s[i + |d|..], d).tail)
  {
  }

  /** Putting back one piece and its delimiter in front of a description of
      the bytes after an occurrence at `i` describes the whole of `s`. */
  lemma ReconstructStep(s: seq<byte>, d: seq<byte>, i: nat, r: Split)
    requires MatchesAt(s, d, i)
    requires s[i + |d|..] == Joined(r.pieces, d) + r.tail
    ensures s == Joined([s[..i]] + r.pieces, d) + r.tail
  {
    var ps := [s[..i]] + r.pieces;
    assert ps[0] == s[..i] && ps[1..] == r.pieces;
    SplitAtMatch(s, d, i);
    ConcatAssoc(s[..i] + d, Joined(r.pieces, d), r.tail);
  }

  /** Concatenation re-associates. */
  lemma ConcatAssoc(x: seq<byte>, y: seq<byte>, z: seq<byte>)
    ensures x + (y + z) == (x + y) + z
  {
  }

  /** The scan's pieces, each followed by the delimiter, and then its tail
      give back the scanned bytes. */
  lemma {:induction false} ScanReconstructs(s: seq<byte>, d: seq<byte>)
    requires |d| > 0
    ensures s == Joined(Scan(s, d).pieces, d) + Scan(s, d).tail
  {
    var m := FirstMatch(s, d);
    if m.Some? {
      var i := m.value;
      ScanAtFirstMatch(s, d, i);
      ScanReconstructs(s[i + |d|..], d);
      ReconstructStep(s, d, i, Scan(s[i + |d|..], d));
    } else {
      ScanNoMatch(s, d);
    }
  }

  /** Every piece the scan cuts stops at the first delimiter occurrence
      after the previous cut. */
  lemma {:induction false} ScanPiecesEndAtFirstDelimiter(s: seq<byte>, d: seq<byte>)
    requires |d| > 0
    ensures forall k :: 0 <= k < |Scan(s, d).pieces| ==> EndsAtFirstDelimiter(Scan(s, d).pieces[k], d)
  {
    var m := FirstMatch(s, d);
    if m.Some? {
      var i := m.value;
      var rest := s[i + |d|..];
      ScanPiecesEndAtFirstDelimiter(rest, d);
      var r := Scan(rest, d);
      var p := s[..i];
      var ps := [p] + r.pieces;
      ScanAtFirstMatch(s, d, i);
      SplitAtMatch(s, d, i);
      forall j | 0 <= j < |p|
        ensures !MatchesAt(p + d, d, j)
      {
        MatchesAtPrefix(p + d, rest, d, j);
      }
      forall k | 0 <= k < |ps|
        ensures EndsAtFirstDelimiter(ps[k], d)
      {
        if k > 0 {
          assert ps[k] == r.pieces[k - 1];
        }
      }
    }
  }

  /** Joining one more piece appends it and its delimiter. */
  lemma {:induction false} JoinedSnoc(ps: seq<seq<byte>>, p: seq<byte>, d: seq<byte>)
    ensures Joined(ps + [p], d) == Joined(ps, d) + p + d
  {
    if ps == [] {
      assert [p][1..] == [];
    } else {
      assert (ps + [p])[1..] == ps[1..] + [p];
      JoinedSnoc(ps[1..], p, d);
    }
  }

  /** Soundness: the scan's result describes the scanned bytes in the sense
      of IsFraming. */
  lemma ScanSound(s: seq<byte>, d: seq<byte>)
    requires |d| > 0
    ensures IsFraming(s, d, Scan(s, d).pieces, Scan(s, d).tail)
  {
    ScanReconstructs(s, d);
    ScanPiecesEndAtFirstDelimiter(s, d);
  }

  /** The tail is what is left at the end of the scanned bytes. */
  lemma ScanTailIsSuffix(s: seq<byte>, d: seq<byte>)
    requires |d| > 0
    ensures |Scan(s, d).tail| <= |s|
    ensures Scan(s, d).tail == s[|s| - |Scan(s, d).tail|..]
  {
    ScanReconstructs(s, d);
    var j := Joined(Scan(s, d).pieces, d);
    assert s[|j|..] == Scan(s, d).tail;
  }

  /** Uniqueness: any description of `s` as pieces and tail in the sense of
      IsFraming is the one the scan produces. */
  lemma {:induction false} ScanUnique(s: seq<byte>, d: seq<byte>, ps: seq<seq<byte>>, t: seq<byte>)
    requires |d| > 0
    requires IsFraming(s, d, ps, t)
    ensures Scan(s, d) == Split(ps, t)
  {
    if ps == [] {
      assert s == t;
      ScanNoMatch(s, d);
    } else {
      var p := ps[0];
      var rest := Joined(ps[1..], d) + t;
      assert s == p + d + rest;
      MatchesAtPrefix(p + d, rest, d, |p|);
      assert (p + d)[|p|..|p| + |d|] == d;
      forall j | 0 <= j < |p|
        ensures !MatchesAt(s, d, j)
      {
        assert EndsAtFirstDelimiter(ps[0], d);
        MatchesAtPrefix(p + d, rest, d, j);
      }
      FirstMatchIs(s, d, |p|);
      assert s[|p| + |d|..] == rest;
      assert s[..|p|] == p;
      forall k | 0 <= k < |ps[1..]|
        ensures EndsAtFirstDelimiter(ps[1..][k], d)
      {
        assert ps[1..][k] == ps[k + 1];
      }
      ScanUnique(rest, d, ps[1..], t);
      assert [p] + ps[1..] == ps;
    }
  }

  /** The scan's result is characterised, in both directions, by IsFraming. */
  lemma ScanCharacterized(s: seq<byte>, d: seq<byte>, ps: seq<seq<byte>>, t: seq<byte>)
    requires |d| > 0
    ensures Scan(s, d) == Split(ps, t) <==> IsFraming(s, d, ps, t)
  {
    ScanSound(s, d);
    if IsFraming(s, d, ps, t) {
      ScanUnique(s, d, ps, t);
    }
  }

  /** Scanning bytes that hold no delimiter finds no piece. */
  lemma ScanNoMatch(s: seq<byte>, d: seq<byte>)
    requires |d| > 0 && NoMatch(s, d)
    ensures Scan(s, d) == Split([], s)
  {
  }

  /** An occurrence found in `x` is still the first one once bytes are
      appended to `x`. */
  lemma FirstMatchExtends(x: seq<byte>, c: seq<byte>, d: seq<byte>, i: nat)
    requires FirstMatch(x, d) == Some(i)
    ensures FirstMatch(x + c, d) == Some(i)
  {
    MatchesAtPrefix(x, c, d, i);
    forall j | 0 <= j < i
      ensures !MatchesAt(x + c, d, j)
    {
      MatchesAtPrefix(x, c, d, j);
    }
    FirstMatchIs(x + c, d, i);
  }

  /** Bytes arriving later do not change the pieces already cut: scanning
      `x + c` gives the pieces of `x`, then the pieces of `x`'s unscanned tail
      followed by `c`. This is why the loop may scan after every read. */
  lemma {:induction false} ScanAppend(x: seq<byte>, c: seq<byte>, d: seq<byte>)
    requires |d| > 0
    decreases |x|, 1
    ensures var later := Scan(Scan(x, d).tail + c, d);
            Scan(x + c, d) == Split(Scan(x, d).pieces + later.pieces, later.tail)
  {
    var m := FirstMatch(x, d);
    if m.None? {
      assert Scan(x, d) == Split([], x);
      assert [] + Scan(x + c, d).pieces == Scan(x + c, d).pieces;
    } else {
      ScanAppendAtMatch(x, c, d, m.value);
    }
  }

  /** Re-associates a piece cut in front of two consecutive scans. */
  lemma PrependPiece(p: seq<byte>, whole: Split, front: Split, inner: Split, first: Split, later: Split)
    requires whole == Split([p] + inner.pieces, inner.tail)
    requires front == Split([p] + first.pieces, first.tail)
    requires inner == Split(first.pieces + later.pieces, later.tail)
    ensures whole == Split(front.pieces + later.pieces, later.tail)
  {
    assert [p] + (first.pieces + later.pieces) == ([p] + first.pieces) + later.pieces;
  }

  /** Appending bytes after an occurrence does not move the first cut. */
  lemma ScanAppendFirstCut(x: seq<byte>, c: seq<byte>, d: seq<byte>, i: nat)
    requires |d| > 0 && FirstMatch(x, d) == Some(i)
    ensures var inner := Scan(x[i + |d|..] + c, d);
            Scan(x + c, d) == Split([x[..i]] + inner.pieces, inner.tail)
  {
    FirstMatchExtends(x, c, d, i);
    ScanAtFirstMatch(x + c, d, i);
    assert (x + c)[i + |d|..] == x[i + |d|..] + c;
    assert (x + c)[..i] == x[..i];
  }

  /** ScanAppend when `x` holds a delimiter occurrence, first at `i`. */
  lemma {:induction false} ScanAppendAtMatch(x: seq<byte>, c: seq<byte>, d: seq<byte>, i: nat)
    requires |d| > 0 && FirstMatch(x, d) == Some(i)
    decreases |x|, 0
    ensures var later := Scan(Scan(x, d).tail + c, d);
            Scan(x + c, d) == Split(Scan(x, d).pieces + later.pieces, later.tail)
  {
    var rest := x[i + |d|..];
    var p := x[..i];
    ScanAppendFirstCut(x, c, d, i);
    ScanAtFirstMatch(x, d, i);
    ScanAppend(rest, c, d);
    PrependPiece(p, Scan(x + c, d), Scan(x, d), Scan(rest + c, d), Scan(rest, d),
                 Scan(Scan(rest, d).tail + c, d));
  }

  /** Filtering out empty pieces distributes over concatenation. */
  lemma {:induction false} NonEmptyAppend(a: seq<seq<byte>>, b: seq<seq<byte>>)
    ensures NonEmpty(a + b) == NonEmpty(a) + NonEmpty(b)
  {
    if a == [] {
      assert a + b == b;
    } else {
      assert (a + b)[0] == a[0];
      assert (a + b)[1..] == a[1..] + b;
      NonEmptyAppend(a[1..], b);
    }
  }

  /** Cutting one more piece publishes it exactly when it is not empty. */
  lemma NonEmptySnoc(ps: seq<seq<byte>>, p: seq<byte>)
    ensures NonEmpty(ps + [p]) == if p == [] then NonEmpty(ps) else NonEmpty(ps) + [p]
  {
    NonEmptyAppend(ps, [p]);
    assert [p][1..] == [];
  }

  /** Two back-to-back delimiters cut two empty pieces, so no frame, and the
      scan continues after the second one. */
  lemma BackToBackDelimiters(d: seq<byte>, s: seq<byte>)
    requires |d| > 0
    ensures Scan(d + d + s, d) == Split([[], []] + Scan(s, d).pieces, Scan(s, d).tail)
    ensures NonEmpty(Scan(d + d + s, d).pieces) == NonEmpty(Scan(s, d).pieces)
  {
    var u := d + d + s;
    assert u[0..|d|] == d;
    FirstMatchIs(u, d, 0);
    assert u[|d|..] == d + s;
    assert (d + s)[0..|d|] == d;
    FirstMatchIs(d + s, d, 0);
    assert (d + s)[|d|..] == s;
    assert u[..0] == [] && (d + s)[..0] == [];
    assert [[]] + ([[]] + Scan(s, d).pieces) == [[], []] + Scan(s, d).pieces;
    NonEmptyAppend([[], []], Scan(s, d).pieces);
  }

  /** The bytes of an ASCII string (each character's code, modulo 256), for
      writing concrete streams. */
  function Ascii(s: string): (r: seq<byte>)
    ensures |r| == |s| && forall i :: 0 <= i < |s| ==> r[i] as int == s[i] as int % 256
  {
    seq(|s|, i requires 0 <= i < |s| => (s[i] as int % 256) as byte)
  }

  /** The pieces of the example below, joined with "|D|", give back its bytes. */
  lemma ExampleJoined()
    ensures Joined([Ascii("AB"), [], Ascii("CD")], Ascii("|D|")) == Ascii("AB|D||D|CD|D|")
  {
    var d, ab, cd := Ascii("|D|"), Ascii("AB"), Ascii("CD");
    var ps: seq<seq<byte>> := [ab, [], cd];
    assert Joined([cd], d) == cd + d by {
      assert [cd][1..] == [];
    }
    assert Joined([[], cd], d) == d + cd + d by {
      assert [[], cd][1..] == [cd];
    }
    assert Joined(ps, d) == ab + d + d + cd + d by {
      assert ps[1..] == [[], cd];
    }
  }

  /** Each piece of the example below ends at the first "|D|" after it. */
  lemma ExamplePiecesEnd()
    ensures forall k :: 0 <= k < 3 ==> EndsAtFirstDelimiter([Ascii("AB"), [], Ascii("CD")][k], Ascii("|D|"))
  {
    var d, ab, cd := Ascii("|D|"), Ascii("AB"), Ascii("CD");
    var ps: seq<seq<byte>> := [ab, [], cd];
    forall j | 0 <= j < 2
      ensures !MatchesAt(ab + d, d, j)
    {
      assert (ab + d)[j] != d[0];
    }
    forall j | 0 <= j < 2
      ensures !MatchesAt(cd + d, d, j)
    {
      assert (cd + d)[j] != d[0];
    }
    assert EndsAtFirstDelimiter([] + [], d);
    forall k | 0 <= k < 3
      ensures EndsAtFirstDelimiter(ps[k], d)
    {
    }
  }

  /** Delimiter "|D|" over "AB|D||D|CD|D|": the pieces are "AB", an empty one
      and "CD", the tail is empty, and the frames published are "AB" and "CD". */
  lemma ScanExample()
    ensures Scan(Ascii("AB|D||D|CD|D|"), Ascii("|D|")) == Split([Ascii("AB"), [], Ascii("CD")], [])
    ensures NonEmpty(Scan(Ascii("AB|D||D|CD|D|"), Ascii("|D|")).pieces) == [Ascii("AB"), Ascii("CD")]
  {
    var d, s := Ascii("|D|"), Ascii("AB|D||D|CD|D|");
    var ab, cd := Ascii("AB"), Ascii("CD");
    var ps: seq<seq<byte>> := [ab, [], cd];
    ExampleJoined();
    ExamplePiecesEnd();
    assert s == Joined(ps, d) + [];
    ScanUnique(s, d, ps, []);
    assert NonEmpty(ps) == [ab] + NonEmpty([[], cd]) by {
      assert ps[1..] == [[], cd];
    }
    assert NonEmpty([[], cd]) == NonEmpty([cd]) by {
      assert [[], cd][1..] == [cd];
    }
    assert NonEmpty([cd]) == [cd] by {
      assert [cd][1..] == [];
    }
  }
}
