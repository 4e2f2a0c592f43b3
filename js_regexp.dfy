/**
 * The part of JavaScript's RegExp that the calculator uses: patterns that are an
 * alternation of literal texts (`a|b|c`, with every syntax character escaped),
 * the sticky match of such a pattern at one position, and `String.prototype.split`
 * with a RegExp separator as ECMAScript's RegExp.prototype[@@split] defines it.
 */
module JsRegExp {
  import opened Wrappers
  import opened JsString

  /** ECMAScript SyntaxCharacter: ^ $ \ . * + ? ( ) [ ] { } | */
  predicate IsSyntaxCharacter(c: char) {
    c in "^$\\.*+?()[]{}|"
  }

  /**
   * A compiled pattern of the fragment modelled here: literal alternatives tried
   * left to right. `Alternation([""])` is the empty pattern, which matches the
   * empty string everywhere.
   */
  datatype Regex = Alternation(alternatives: seq<string>)

  /** The source text `c` followed by whatever `rest` parsed to, as the first alternative. */
  function Extend(c: char, rest: Option<seq<string>>): (r: Option<seq<string>>)
    requires rest.Some? ==> |rest.value| >= 1
    ensures r.Some? <==> rest.Some?
    ensures r.Some? ==> |r.value| == |rest.value| && r.value[0] == [c] + rest.value[0]
                        && r.value[1..] == rest.value[1..]
  {
    match rest
    case None => None
    case Some(alts) => Some([[c] + alts[0]] + alts[1..])
  }

  /**
   * Parses a pattern source made of plain characters, `\` followed by a syntax
   * character, and top-level `|`, into its alternatives; `None` for any source
   * outside that fragment.
   */
  function ParseAlternatives(source: string): (r: Option<seq<string>>)
    ensures r.Some? ==> |r.value| >= 1
    decreases |source|
  {
    if |source| == 0 then Some([""])
    else if source[0] == '|' then
      match ParseAlternatives(source[1..])
      case None => None
      case Some(alts) => Some([""] + alts)
    else if source[0] == '\\' then
      if |source| >= 2 && IsSyntaxCharacter(source[1]) then Extend(source[1], ParseAlternatives(source[2..]))
      else None
    else if IsSyntaxCharacter(source[0]) then None
    else Extend(source[0], ParseAlternatives(source[1..]))
  }

  /** `new RegExp(source)` for sources of the literal-alternation fragment. */
  function Compile(source: string): (r: Option<Regex>)
    ensures r.Some? ==> |r.value.alternatives| >= 1
  {
    match ParseAlternatives(source)
    case None => None
    case Some(alts) => Some(Alternation(alts))
  }

  /** Index of the first alternative, from `from` on, that matches `s` at position `q`. */
  function FirstAlternative(s: string, q: nat, alts: seq<string>, from: nat): (r: Option<nat>)
    requires q <= |s| && from <= |alts|
    ensures r.Some? ==> from <= r.value < |alts| && |alts[r.value]| <= |s| - q
    decreases |alts| - from
  {
    if from == |alts| then None
    else if alts[from] <= s[q..] then Some(from)
    else FirstAlternative(s, q, alts, from + 1)
  }

  /** FirstAlternative finds an alternative the text at `q` starts with, and none before it does. */
  lemma {:induction false} FirstAlternativeIsFirst(s: string, q: nat, alts: seq<string>, from: nat)
    requires q <= |s| && from <= |alts|
    ensures var r := FirstAlternative(s, q, alts, from);
            && (r.Some? ==> alts[r.value] <= s[q..] && forall j :: from <= j < r.value ==> !(alts[j] <= s[q..]))
            && (r.None? ==> forall j :: from <= j < |alts| ==> !(alts[j] <= s[q..]))
    decreases |alts| - from
  {
    if from < |alts| && !(alts[from] <= s[q..]) {
      FirstAlternativeIsFirst(s, q, alts, from + 1);
    }
  }

  /**
   * Where a sticky match of the alternation at `q` ends: the end of the first
   * alternative, in order, that the text at `q` starts with.
   */
  function MatchAt(s: string, q: nat, alts: seq<string>): (r: Option<nat>)
    requires q <= |s|
    ensures r.Some? ==> q <= r.value <= |s|
  {
    match FirstAlternative(s, q, alts, 0)
    case None => None
    case Some(k) => Some(q + |alts[k]|)
  }

  /**
   * The sticky match succeeds exactly when some alternative starts the text at
   * `q`, and then it ends where the first such alternative ends.
   */
  lemma {:induction false} MatchAtIsFirstMatch(s: string, q: nat, alts: seq<string>)
    requires q <= |s|
    ensures MatchAt(s, q, alts).Some? <==> exists k :: 0 <= k < |alts| && alts[k] <= s[q..]
    ensures MatchAt(s, q, alts).Some? ==>
              exists k :: 0 <= k < |alts| && alts[k] <= s[q..] && MatchAt(s, q, alts).value == q + |alts[k]|
                          && forall j :: 0 <= j < k ==> !(alts[j] <= s[q..])
  {
    FirstAlternativeIsFirst(s, q, alts, 0);
  }

  /**
   * The main loop of RegExp.prototype[@@split]: `p` is where the current piece
   * starts, `q` the position being tried.
   */
  function SplitFrom(s: string, alts: seq<string>, p: nat, q: nat): seq<string>
    requires p <= q <= |s|
    decreases |s| - q, q - p
  {
    if q == |s| then [s[p..]]
    else
      match MatchAt(s, q, alts)
      case None => SplitFrom(s, alts, p, q + 1)
      case Some(e) =>
        if e == p then SplitFrom(s, alts, p, q + 1)
        else [s[p..q]] + SplitFrom(s, alts, e, e)
  }

  /** `s.split(re)` with no limit and a pattern without capture groups. */
  function Split(s: string, re: Regex): seq<string>
  {
    if |s| == 0 then (if MatchAt(s, 0, re.alternatives).Some? then [] else [s])
    else SplitFrom(s, re.alternatives, 0, 0)
  }

  // ---------------------------------------------------------------------------
  // Reconstruction: the pieces joined with the delimiter give back the text.

  /** A single literal delimiter that matches at `q` spans `s[q..q + |d|]`. */
  lemma {:induction false} SingleMatch(s: string, d: string, q: nat)
    requires q <= |s| && MatchAt(s, q, [d]).Some?
    ensures MatchAt(s, q, [d]).value == q + |d| && s[q..q + |d|] == d
  {
    MatchAtIsFirstMatch(s, q, [d]);
  }

  lemma {:induction false} JoinCons(x: string, rest: seq<string>, d: string)
    requires |rest| >= 1
    ensures Join([x] + rest, d) == x + d + Join(rest, d)
  {
    assert ([x] + rest)[1..] == rest;
  }

  lemma {:induction false} SplitFromRejoin(s: string, d: string, p: nat, q: nat)
    requires |d| > 0 && p <= q <= |s|
    ensures Join(SplitFrom(s, [d], p, q), d) == s[p..]
    decreases |s| - q, q - p
  {
    if q < |s| {
      var m := MatchAt(s, q, [d]);
      if m.Some? && m.value != p {
        var e := m.value;
        SingleMatch(s, d, q);
        SplitFromRejoin(s, d, e, e);
        var rest := SplitFrom(s, [d], e, e);
        assert SplitFrom(s, [d], p, q) == [s[p..q]] + rest;
        SplitFromPieces(s, [d], e, e);
        JoinCons(s[p..q], rest, d);
        assert s[p..q] + d + s[e..] == s[p..];
      } else {
        SplitFromRejoin(s, d, p, q + 1);
      }
    }
  }

  /** SplitFrom always yields at least one piece. */
  lemma {:induction false} SplitFromPieces(s: string, alts: seq<string>, p: nat, q: nat)
    requires p <= q <= |s|
    ensures |SplitFrom(s, alts, p, q)| >= 1
    decreases |s| - q, q - p
  {
    if q < |s| {
      match MatchAt(s, q, alts)
      case None => SplitFromPieces(s, alts, p, q + 1);
      case Some(e) =>
        if e == p { SplitFromPieces(s, alts, p, q + 1); } else { SplitFromPieces(s, alts, e, e); }
    }
  }

  /** Splitting on a single non-empty literal delimiter and joining with it is the identity. */
  lemma {:induction false} SplitRejoin(s: string, d: string)
    requires |d| > 0
    ensures Join(Split(s, Alternation([d])), d) == s
  {
    if |s| > 0 {
      SplitFromRejoin(s, d, 0, 0);
    } else {
      assert !(d <= s);
    }
  }

  // ---------------------------------------------------------------------------
  // No piece contains a delimiter.

  predicate AllNonEmpty(alts: seq<string>) {
    forall k :: 0 <= k < |alts| ==> |alts[k]| > 0
  }

  /** `a` occurs somewhere inside `t`. */
  predicate Occurs(a: string, t: string) {
    exists i :: 0 <= i <= |t| && a <= t[i..]
  }

  /** An alternative occurring in `s[p..n]` would have matched at a position of `[p, n)`. */
  lemma {:induction false} OccurrenceMatches(s: string, alts: seq<string>, p: nat, n: nat, k: nat)
    requires p <= n <= |s| && k < |alts| && |alts[k]| > 0
    ensures Occurs(alts[k], s[p..n]) ==> exists m :: p <= m < n && MatchAt(s, m, alts).Some?
  {
    var a := alts[k];
    if Occurs(a, s[p..n]) {
      var i :| 0 <= i <= n - p && a <= s[p..n][i..];
      assert s[p..n][i..] == s[p + i..n];
      assert s[p + i..n] <= s[p + i..];
      MatchAtIsFirstMatch(s, p + i, alts);
      assert MatchAt(s, p + i, alts).Some?;
    }
  }

  lemma {:induction false} SplitFromAvoids(s: string, alts: seq<string>, p: nat, q: nat)
    requires p <= q <= |s| && AllNonEmpty(alts)
    requires forall m :: p <= m < q ==> MatchAt(s, m, alts).None?
    ensures forall i, k :: 0 <= i < |SplitFrom(s, alts, p, q)| && 0 <= k < |alts| ==>
              !Occurs(alts[k], SplitFrom(s, alts, p, q)[i])
    decreases |s| - q, q - p
  {
    var pieces := SplitFrom(s, alts, p, q);
    if q == |s| {
      assert pieces[0] == s[p..|s|];
      forall k | 0 <= k < |alts| ensures !Occurs(alts[k], pieces[0]) {
        OccurrenceMatches(s, alts, p, |s|, k);
      }
    } else {
      var m := MatchAt(s, q, alts);
      if m.Some? && m.value != p {
        var e := m.value;
        SplitFromAvoids(s, alts, e, e);
        assert pieces == [s[p..q]] + SplitFrom(s, alts, e, e);
        forall i, k | 0 <= i < |pieces| && 0 <= k < |alts| ensures !Occurs(alts[k], pieces[i]) {
          if i == 0 {
            OccurrenceMatches(s, alts, p, q, k);
          } else {
            assert pieces[i] == SplitFrom(s, alts, e, e)[i - 1];
          }
        }
      } else {
        assert m.None?;
        SplitFromAvoids(s, alts, p, q + 1);
      }
    }
  }

  /** Splitting on delimiters that are all non-empty leaves no delimiter inside any piece. */
  lemma {:induction false} SplitAvoids(s: string, re: Regex)
    requires AllNonEmpty(re.alternatives)
    ensures forall i, k :: 0 <= i < |Split(s, re)| && 0 <= k < |re.alternatives| ==>
              !Occurs(re.alternatives[k], Split(s, re)[i])
  {
    if |s| > 0 {
      SplitFromAvoids(s, re.alternatives, 0, 0);
    } else {
      forall i, k | 0 <= i < |Split(s, re)| && 0 <= k < |re.alternatives|
        ensures !Occurs(re.alternatives[k], Split(s, re)[i])
      {
        assert Split(s, re)[i] == "";
      }
    }
  }

  // ---------------------------------------------------------------------------
  // Splitting text that was built by interleaving pieces and delimiters.

  /** `pieces[0] + seps[0] + pieces[1] + ... + pieces[n]` */
  function Interleave(pieces: seq<string>, seps: seq<string>): string
    requires |pieces| == |seps| + 1
    decreases |seps|
  {
    if |seps| == 0 then pieces[0] else pieces[0] + seps[0] + Interleave(pieces[1..], seps[1..])
  }

  /** Every alternative is non-empty and no two begin with the same character. */
  predicate DistinctHeads(alts: seq<string>) {
    && AllNonEmpty(alts)
    && forall i, j :: 0 <= i < j < |alts| ==> alts[i][0] != alts[j][0]
  }

  /** No character of `t` is the first character of an alternative. */
  predicate AvoidsHeads(t: string, alts: seq<string>) {
    forall i, k :: 0 <= i < |t| && 0 <= k < |alts| && |alts[k]| > 0 ==> t[i] != alts[k][0]
  }

  /** The scan runs through a stretch without a match-start and does not cut it. */
  lemma {:induction false} SplitFromSkips(s: string, alts: seq<string>, p: nat, q: nat, n: nat)
    requires p <= q <= n <= |s|
    requires forall m :: q <= m < n ==> MatchAt(s, m, alts).None?
    ensures SplitFrom(s, alts, p, q) == SplitFrom(s, alts, p, n)
    decreases n - q
  {
    if q < n {
      SplitFromSkips(s, alts, p, q + 1, n);
    }
  }

  /** At a position where alternative `j` starts, the match covers exactly that alternative. */
  lemma {:induction false} MatchAtHead(s: string, q: nat, alts: seq<string>, j: nat)
    requires q <= |s| && j < |alts| && DistinctHeads(alts) && alts[j] <= s[q..]
    ensures MatchAt(s, q, alts) == Some(q + |alts[j]|)
  {
    MatchAtIsFirstMatch(s, q, alts);
    var k :| 0 <= k < |alts| && alts[k] <= s[q..] && MatchAt(s, q, alts).value == q + |alts[k]|
              && forall i :: 0 <= i < k ==> !(alts[i] <= s[q..]);
    assert alts[k][0] == s[q..][0] == alts[j][0];
  }

  /** A delimiter of the pattern that comes next is what matches there. */
  lemma {:induction false} SeparatorMatches(s: string, alts: seq<string>, n: nat, sep: string, rest: string)
    requires n <= |s| && s[n..] == sep + rest && sep in alts && DistinctHeads(alts)
    ensures |sep| > 0 && MatchAt(s, n, alts) == Some(n + |sep|)
  {
    var j :| 0 <= j < |alts| && alts[j] == sep;
    assert sep <= s[n..];
    MatchAtHead(s, n, alts, j);
  }

  /** A match at `n` that ends at `e` cuts the current piece off at `n`. */
  lemma {:induction false} SplitFromCut(s: string, alts: seq<string>, p: nat, n: nat, e: nat, tail: seq<string>)
    requires p <= n < e <= |s| && MatchAt(s, n, alts) == Some(e)
    requires SplitFrom(s, alts, e, e) == tail
    ensures SplitFrom(s, alts, p, n) == [s[p..n]] + tail
  {
  }

  /** No alternative matches inside a stretch that avoids their first characters. */
  lemma {:induction false} NoMatchInPiece(s: string, alts: seq<string>, p: nat, n: nat, piece: string)
    requires p <= n <= |s| && s[p..n] == piece && AllNonEmpty(alts) && AvoidsHeads(piece, alts)
    ensures forall m :: p <= m < n ==> MatchAt(s, m, alts).None?
  {
    forall m | p <= m < n ensures MatchAt(s, m, alts).None? {
      assert s[m] == piece[m - p];
      forall k | 0 <= k < |alts| ensures !(alts[k] <= s[m..]) {
        assert alts[k][0] != s[m..][0];
      }
      MatchAtIsFirstMatch(s, m, alts);
    }
  }

  /** The scan runs through a piece free of delimiter characters without cutting it. */
  lemma {:induction false} SplitFromThroughPiece(s: string, alts: seq<string>, p: nat, n: nat, piece: string)
    requires p <= n <= |s| && s[p..n] == piece && AllNonEmpty(alts) && AvoidsHeads(piece, alts)
    ensures SplitFrom(s, alts, p, p) == SplitFrom(s, alts, p, n)
  {
    NoMatchInPiece(s, alts, p, n, piece);
    SplitFromSkips(s, alts, p, p, n);
  }

  /** The last piece, free of delimiter characters, is taken whole. */
  lemma {:induction false} SplitFromLastPiece(s: string, alts: seq<string>, p: nat, piece: string)
    requires p <= |s| && s[p..] == piece && AllNonEmpty(alts) && AvoidsHeads(piece, alts)
    ensures SplitFrom(s, alts, p, p) == [piece]
  {
    assert s[p..|s|] == piece;
    SplitFromThroughPiece(s, alts, p, |s|, piece);
  }

  /** Where a piece, a delimiter and the rest lie when they make up `s[p..]`. */
  lemma {:induction false} SliceParts(s: string, p: nat, piece: string, sep: string, rest: string)
    requires p <= |s| && s[p..] == piece + sep + rest
    ensures p + |piece| + |sep| <= |s|
    ensures s[p..p + |piece|] == piece && s[p + |piece|..] == sep + rest && s[p + |piece| + |sep|..] == rest
  {
    var t := s[p..];
    assert s[p..p + |piece|] == t[..|piece|];
    assert s[p + |piece|..] == t[|piece|..];
    assert s[p + |piece| + |sep|..] == t[|piece| + |sep|..];
  }

  /**
   * A piece free of delimiter characters, ended by a match of the pattern, is
   * cut off there, and the split goes on after the match.
   */
  lemma {:induction false} SplitFromPieceThen(s: string, alts: seq<string>, p: nat, n: nat, e: nat,
                                              piece: string, tail: seq<string>)
    requires p <= n < e <= |s| && s[p..n] == piece && AllNonEmpty(alts) && AvoidsHeads(piece, alts)
    requires MatchAt(s, n, alts) == Some(e)
    requires SplitFrom(s, alts, e, e) == tail
    ensures SplitFrom(s, alts, p, p) == [piece] + tail
  {
    SplitFromThroughPiece(s, alts, p, n, piece);
    SplitFromCut(s, alts, p, n, e, tail);
  }

  /** From the start of a piece, the scan cuts the interleaved text back into its pieces. */
  lemma {:induction false} SplitFromInterleaved(s: string, alts: seq<string>, p: nat,
                                                pieces: seq<string>, seps: seq<string>)
    requires p <= |s| && |pieces| == |seps| + 1 && s[p..] == Interleave(pieces, seps)
    requires DistinctHeads(alts)
    requires forall i :: 0 <= i < |seps| ==> seps[i] in alts
    requires forall i :: 0 <= i < |pieces| ==> AvoidsHeads(pieces[i], alts)
    ensures SplitFrom(s, alts, p, p) == pieces
    decreases |seps|
  {
    assert AvoidsHeads(pieces[0], alts);
    if |seps| > 0 {
      var rest := Interleave(pieces[1..], seps[1..]);
      assert s[p..] == pieces[0] + seps[0] + rest;
      SliceParts(s, p, pieces[0], seps[0], rest);
      var n := p + |pieces[0]|;
      var e := n + |seps[0]|;
      SeparatorMatches(s, alts, n, seps[0], rest);
      SplitFromInterleaved(s, alts, e, pieces[1..], seps[1..]);
      SplitFromPieceThen(s, alts, p, n, e, pieces[0], pieces[1..]);
      assert pieces == [pieces[0]] + pieces[1..];
    } else {
      SplitFromLastPiece(s, alts, p, pieces[0]);
    }
  }

  /**
   * Text built from pieces free of delimiter characters, joined by delimiters of
   * the pattern, splits back into exactly those pieces.
   */
  lemma {:induction false} SplitOfInterleaved(pieces: seq<string>, seps: seq<string>, alts: seq<string>)
    requires |pieces| == |seps| + 1
    requires DistinctHeads(alts)
    requires forall i :: 0 <= i < |seps| ==> seps[i] in alts
    requires forall i :: 0 <= i < |pieces| ==> AvoidsHeads(pieces[i], alts)
    ensures Split(Interleave(pieces, seps), Alternation(alts)) == pieces
  {
    var s := Interleave(pieces, seps);
    if |seps| > 0 {
      var j :| 0 <= j < |alts| && alts[j] == seps[0];
      assert |s| >= |seps[0]| > 0;
    }
    if |s| == 0 {
      assert pieces == [""];
    } else {
      SplitFromInterleaved(s, alts, 0, pieces, seps);
    }
  }

  /** `Join` with one delimiter is the interleaving with that delimiter repeated. */
  function Repeat(d: string, n: nat): (r: seq<string>)
    ensures |r| == n && forall i :: 0 <= i < n ==> r[i] == d
  {
    if n == 0 then [] else [d] + Repeat(d, n - 1)
  }

  lemma {:induction false} JoinIsInterleave(parts: seq<string>, d: string)
    requires |parts| >= 1
    ensures Join(parts, d) == Interleave(parts, Repeat(d, |parts| - 1))
    decreases |parts|
  {
    if |parts| > 1 {
      JoinIsInterleave(parts[1..], d);
      assert Repeat(d, |parts| - 1)[1..] == Repeat(d, |parts| - 2);
    }
  }

  // ---------------------------------------------------------------------------
  // The empty pattern matches everywhere, so splitting on it yields the characters.

  /** The one-character pieces of `s`, in order. */
  function Characters(s: string): (r: seq<string>)
    ensures |r| == |s| && forall i :: 0 <= i < |s| ==> r[i] == [s[i]]
  {
    seq(|s|, i requires 0 <= i < |s| => [s[i]])
  }

  lemma {:induction false} SplitFromCharacters(s: string, p: nat)
    requires p < |s|
    ensures SplitFrom(s, [""], p, p) == Characters(s[p..])
    decreases |s| - p
  {
    assert "" <= s[p..];
    assert MatchAt(s, p, [""]) == Some(p);
    if p + 1 == |s| {
      assert SplitFrom(s, [""], p, p + 1) == [s[p..]];
      assert [s[p..][0]] == s[p..];
    } else {
      assert "" <= s[p + 1..];
      assert MatchAt(s, p + 1, [""]) == Some(p + 1);
      assert SplitFrom(s, [""], p, p + 1) == [s[p..p + 1]] + SplitFrom(s, [""], p + 1, p + 1);
      SplitFromCharacters(s, p + 1);
      assert s[p..][1..] == s[p + 1..];
      assert s[p..p + 1] == [s[p..][0]];
      var split := [s[p..p + 1]] + Characters(s[p + 1..]);
      assert forall i :: 0 <= i < |s[p..]| ==> split[i] == [s[p..][i]];
    }
  }

  /** `s.split(new RegExp(""))` cuts `s` into its characters; `""` gives no pieces at all. */
  lemma {:induction false} SplitIntoCharacters(s: string)
    ensures Split(s, Alternation([""])) == Characters(s)
  {
    if |s| == 0 {
      assert "" <= s[0..];
    } else {
      SplitFromCharacters(s, 0);
      assert s[0..] == s;
    }
  }
}
