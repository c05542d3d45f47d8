/**
 The part of Go's `strings` and `unicode` packages that the service uses, on
 strings of Unicode scalar values.  The character tables are a parameter; the
 service relies only on the laws in `Lawful`.
 */
module Text {

  datatype Tables = Tables(isSpace: char -> bool, isControl: char -> bool, lower: char -> char) {
    ghost predicate Lawful() {
      && isSpace(' ')
      && !isControl(' ')
      && (forall c: char :: lower(lower(c)) == lower(c))
      && (forall c: char :: !isSpace(c) && !isControl(c) ==> !isSpace(lower(c)) && !isControl(lower(c)))
    }
  }

  type Unicode = t: Tables | t.Lawful()
    witness Tables(c => c == ' ', c => false, c => c)

  // ---------- strings.TrimSpace ----------

  function TrimLeft(u: Unicode, s: string): (r: string)
    ensures |r| <= |s|
  {
    if s != [] && u.isSpace(s[0]) then TrimLeft(u, s[1..]) else s
  }

  function TrimRight(u: Unicode, s: string): (r: string)
    ensures |r| <= |s|
  {
    if s != [] && u.isSpace(s[|s| - 1]) then TrimRight(u, s[..|s| - 1]) else s
  }

  function TrimSpace(u: Unicode, s: string): string {
    TrimRight(u, TrimLeft(u, s))
  }

  // ---------- strings.Fields ----------

  /** How the stretches between white-space runes grow by one rune. */
  function Grow(u: Unicode, ps: seq<string>, c: char): (r: seq<string>)
    requires |ps| > 0
    ensures |r| > 0
  {
    if u.isSpace(c) then ps + [[]] else ps[..|ps| - 1] + [ps[|ps| - 1] + [c]]
  }

  /** The stretches between consecutive white-space runes, empty ones included. */
  function Pieces(u: Unicode, s: string): (ps: seq<string>)
    ensures |ps| > 0
  {
    if s == [] then [[]] else Grow(u, Pieces(u, s[..|s| - 1]), s[|s| - 1])
  }

  function NonEmpty(ps: seq<string>): seq<string> {
    if ps == [] then [] else
      var front := NonEmpty(ps[..|ps| - 1]);
      if ps[|ps| - 1] == [] then front else front + [ps[|ps| - 1]]
  }

  function Fields(u: Unicode, s: string): seq<string> {
    NonEmpty(Pieces(u, s))
  }

  /** The tokens with one blank between neighbours. */
  function Join(ts: seq<string>): string {
    if ts == [] then []
    else if |ts| == 1 then ts[0]
    else Join(ts[..|ts| - 1]) + " " + ts[|ts| - 1]
  }

  predicate SpaceFree(u: Unicode, s: string) {
    forall i :: 0 <= i < |s| ==> !u.isSpace(s[i])
  }

  predicate AllSpaceFree(u: Unicode, ps: seq<string>) {
    forall i :: 0 <= i < |ps| ==> SpaceFree(u, ps[i])
  }

  /** What `Fields` returns: non-empty tokens without white space. */
  predicate AreTokens(u: Unicode, ts: seq<string>) {
    forall i :: 0 <= i < |ts| ==> ts[i] != [] && SpaceFree(u, ts[i])
  }

  // ---------- facts ----------

  lemma NonEmptyAppend(ps: seq<string>, qs: seq<string>)
    ensures NonEmpty(ps + qs) == NonEmpty(ps) + NonEmpty(qs)
  {
    if qs == [] {
      assert ps + qs == ps;
    } else {
      NonEmptyAppend(ps, qs[..|qs| - 1]);
      assert (ps + qs)[..|ps + qs| - 1] == ps + qs[..|qs| - 1];
    }
  }

  lemma NonEmptySnoc(ps: seq<string>, p: string)
    ensures NonEmpty(ps + [p]) == if p == [] then NonEmpty(ps) else NonEmpty(ps) + [p]
  {
    assert (ps + [p])[..|ps|] == ps;
  }

  lemma JoinSnoc(ts: seq<string>, t: string)
    ensures Join(ts + [t]) == if ts == [] then t else Join(ts) + " " + t
  {
    assert (ts + [t])[..|ts|] == ts;
  }

  lemma PiecesSnoc(u: Unicode, s: string, c: char)
    ensures Pieces(u, s + [c]) == Grow(u, Pieces(u, s), c)
  {
    assert (s + [c])[..|s|] == s;
  }

  lemma GrowSuffix(u: Unicode, qs: seq<string>, ps: seq<string>, c: char)
    requires |ps| > 0
    ensures Grow(u, qs + ps, c) == qs + Grow(u, ps, c)
  {
    if !u.isSpace(c) {
      assert (qs + ps)[..|qs + ps| - 1] == qs + ps[..|ps| - 1];
    }
  }

  lemma {:induction false} PiecesSpaceFree(u: Unicode, s: string)
    ensures AllSpaceFree(u, Pieces(u, s))
  {
    if s != [] {
      PiecesSpaceFree(u, s[..|s| - 1]);
      var ps := Pieces(u, s[..|s| - 1]);
      var c := s[|s| - 1];
      assert !u.isSpace(c) ==> SpaceFree(u, ps[|ps| - 1] + [c]);
    }
  }

  lemma {:induction false} FieldsAreTokens(u: Unicode, s: string)
    ensures AreTokens(u, Fields(u, s))
  {
    PiecesSpaceFree(u, s);
    NonEmptyTokens(u, Pieces(u, s));
  }

  lemma {:induction false} NonEmptyTokens(u: Unicode, ps: seq<string>)
    requires AllSpaceFree(u, ps)
    ensures AreTokens(u, NonEmpty(ps))
  {
    if ps != [] { NonEmptyTokens(u, ps[..|ps| - 1]); }
  }

  lemma {:induction false} NonEmptyIdentity(ps: seq<string>)
    requires forall i :: 0 <= i < |ps| ==> ps[i] != []
    ensures NonEmpty(ps) == ps
  {
    if ps != [] {
      NonEmptyIdentity(ps[..|ps| - 1]);
    }
  }

  /** A blank followed by a token adds exactly that token. */
  lemma {:induction false} PiecesOfToken(u: Unicode, s: string, t: string)
    requires SpaceFree(u, t)
    ensures Pieces(u, s + " " + t) == Pieces(u, s) + [t]
  {
    if t == [] {
      assert s + " " + t == s + " ";
      PiecesSnoc(u, s, ' ');
    } else {
      var t', c := t[..|t| - 1], t[|t| - 1];
      PiecesOfToken(u, s, t');
      assert t' + [c] == t;
      assert s + " " + t == (s + " " + t') + [c];
      PiecesSnoc(u, s + " " + t', c);
      GrowSuffix(u, Pieces(u, s), [t'], c);
    }
  }

  lemma {:induction false} PiecesOfOne(u: Unicode, t: string)
    requires SpaceFree(u, t)
    ensures Pieces(u, t) == [t]
  {
    if t != [] {
      var t', c := t[..|t| - 1], t[|t| - 1];
      PiecesOfOne(u, t');
      assert t == t' + [c];
      PiecesSnoc(u, t', c);
    }
  }

  lemma {:induction false} PiecesOfJoin(u: Unicode, ts: seq<string>)
    requires AreTokens(u, ts) && ts != []
    ensures Pieces(u, Join(ts)) == ts
  {
    if |ts| == 1 {
      PiecesOfOne(u, ts[0]);
    } else {
      var front, last := ts[..|ts| - 1], ts[|ts| - 1];
      assert Join(ts) == Join(front) + " " + last;
      PiecesOfJoin(u, front);
      PiecesOfToken(u, Join(front), last);
      assert front + [last] == ts;
    }
  }

  /** `strings.Fields` undoes joining tokens with single blanks. */
  lemma FieldsOfJoin(u: Unicode, ts: seq<string>)
    requires AreTokens(u, ts)
    ensures Fields(u, Join(ts)) == ts
  {
    if ts == [] {
      assert NonEmpty([[]]) == [];
    } else {
      PiecesOfJoin(u, ts);
      NonEmptyIdentity(ts);
    }
  }

  lemma {:induction false} PiecesOfSpaceThen(u: Unicode, c: char, s: string)
    requires u.isSpace(c)
    ensures Pieces(u, [c] + s) == [[]] + Pieces(u, s)
  {
    if s == [] {
      assert [c] + s == [] + [c];
      PiecesSnoc(u, [], c);
    } else {
      var s', d := s[..|s| - 1], s[|s| - 1];
      PiecesOfSpaceThen(u, c, s');
      assert [c] + s == ([c] + s') + [d];
      PiecesSnoc(u, [c] + s', d);
      GrowSuffix(u, [[]], Pieces(u, s'), d);
    }
  }

  /** Trimming white space never changes the fields. */
  lemma FieldsOfTrim(u: Unicode, s: string)
    ensures Fields(u, TrimSpace(u, s)) == Fields(u, s)
  {
    FieldsOfTrimLeft(u, s);
    FieldsOfTrimRight(u, TrimLeft(u, s));
  }

  lemma {:induction false} FieldsOfTrimLeft(u: Unicode, s: string)
    ensures Fields(u, TrimLeft(u, s)) == Fields(u, s)
  {
    if s != [] && u.isSpace(s[0]) {
      FieldsOfTrimLeft(u, s[1..]);
      assert s == [s[0]] + s[1..];
      PiecesOfSpaceThen(u, s[0], s[1..]);
      NonEmptyAppend([[]], Pieces(u, s[1..]));
      assert NonEmpty([[]]) == [];
    }
  }

  lemma {:induction false} FieldsOfTrimRight(u: Unicode, s: string)
    ensures Fields(u, TrimRight(u, s)) == Fields(u, s)
  {
    if s != [] && u.isSpace(s[|s| - 1]) {
      FieldsOfTrimRight(u, s[..|s| - 1]);
      NonEmptyAppend(Pieces(u, s[..|s| - 1]), [[]]);
      assert NonEmpty([[]]) == [];
    }
  }

  lemma {:induction false} TrimLeftCuts(u: Unicode, s: string)
    ensures var k := |s| - |TrimLeft(u, s)|;
            0 <= k && TrimLeft(u, s) == s[k..] && forall i :: 0 <= i < k ==> u.isSpace(s[i])
    ensures TrimLeft(u, s) != "" ==> !u.isSpace(TrimLeft(u, s)[0])
  {
    if s != [] && u.isSpace(s[0]) { TrimLeftCuts(u, s[1..]); }
  }

  lemma {:induction false} TrimRightCuts(u: Unicode, s: string)
    ensures var r := TrimRight(u, s); r == s[..|r|] && forall i :: |r| <= i < |s| ==> u.isSpace(s[i])
    ensures var r := TrimRight(u, s); r != "" ==> !u.isSpace(r[|r| - 1])
  {
    if s != [] && u.isSpace(s[|s| - 1]) { TrimRightCuts(u, s[..|s| - 1]); }
  }

  /** Trimming cuts off exactly the white space at both ends. */
  lemma TrimSpaceCuts(u: Unicode, s: string) returns (i: nat, j: nat)
    ensures i <= j <= |s| && TrimSpace(u, s) == s[i..j]
    ensures forall k :: 0 <= k < i || j <= k < |s| ==> u.isSpace(s[k])
    ensures i < j ==> !u.isSpace(s[i]) && !u.isSpace(s[j - 1])
  {
    var left := TrimLeft(u, s);
    TrimLeftCuts(u, s);
    TrimRightCuts(u, left);
    i := |s| - |left|;
    j := i + |TrimRight(u, left)|;
    forall k | j <= k < |s| ensures u.isSpace(s[k]) {
      assert s[k] == left[k - i];
    }
  }

  lemma {:induction false} PiecesSplit(u: Unicode, a: string, c: char, b: string)
    requires u.isSpace(c)
    ensures Pieces(u, a + [c] + b) == Pieces(u, a) + Pieces(u, b)
  {
    if b == [] {
      assert a + [c] + b == a + [c];
      PiecesSnoc(u, a, c);
    } else {
      var b', d := b[..|b| - 1], b[|b| - 1];
      PiecesSplit(u, a, c, b');
      assert a + [c] + b == (a + [c] + b') + [d];
      PiecesSnoc(u, a + [c] + b', d);
      GrowSuffix(u, Pieces(u, a), Pieces(u, b'), d);
    }
  }

  /** What splitting is: every white-space rune separates, and a stretch without any is one field. */
  lemma FieldsSplit(u: Unicode, a: string, c: char, b: string)
    ensures u.isSpace(c) ==> Fields(u, a + [c] + b) == Fields(u, a) + Fields(u, b)
    ensures SpaceFree(u, a) ==> Fields(u, a) == if a == "" then [] else [a]
  {
    if u.isSpace(c) {
      PiecesSplit(u, a, c, b);
      NonEmptyAppend(Pieces(u, a), Pieces(u, b));
    }
    if SpaceFree(u, a) {
      PiecesOfOne(u, a);
      assert NonEmpty([]) == [] && [a][..0] == [];
    }
  }

  /** A string that neither starts nor ends with white space is left alone. */
  lemma TrimIdentity(u: Unicode, s: string)
    requires s != [] ==> !u.isSpace(s[0]) && !u.isSpace(s[|s| - 1])
    ensures TrimSpace(u, s) == s
  {
  }

  lemma TrimTrailing(u: Unicode, s: string, c: char)
    requires s != [] && !u.isSpace(s[0]) && !u.isSpace(s[|s| - 1]) && u.isSpace(c)
    ensures TrimSpace(u, s + [c]) == s
  {
    assert (s + [c])[..|s|] == s;
    assert TrimRight(u, s) == s;
  }

  lemma {:induction false} JoinEnds(u: Unicode, ts: seq<string>)
    requires AreTokens(u, ts) && ts != []
    ensures Join(ts) != []
    ensures Join(ts)[0] == ts[0][0]
    ensures var last := ts[|ts| - 1]; Join(ts)[|Join(ts)| - 1] == last[|last| - 1]
  {
    if |ts| > 1 { JoinEnds(u, ts[..|ts| - 1]); }
  }
}
