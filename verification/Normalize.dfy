/** internal/normalize/query.go: the canonical form of a search query. */
module Normalize {
  import opened Wrappers
  import opened Text

  /** Deletes control runes and lowercases the rest. */
  function Clean(u: Unicode, s: string): string {
    if s == [] then [] else
      var front := Clean(u, s[..|s| - 1]);
      if u.isControl(s[|s| - 1]) then front else front + [u.lower(s[|s| - 1])]
  }

  function CleanAll(u: Unicode, ps: seq<string>): (r: seq<string>)
    ensures |r| == |ps|
  {
    if ps == [] then [] else CleanAll(u, ps[..|ps| - 1]) + [Clean(u, ps[|ps| - 1])]
  }

  /** Split on white space, clean every piece, drop the pieces left empty. */
  function Tokens(u: Unicode, s: string): seq<string> {
    NonEmpty(CleanAll(u, Fields(u, s)))
  }

  /** The meaning of `Query`: the cleaned tokens joined with one blank, if there are any. */
  function Normalized(u: Unicode, raw: string): Option<string> {
    var ts := Tokens(u, raw);
    if ts == [] then None else Some(Join(ts))
  }

  /** What cleaning is, rune by rune. */
  lemma {:induction false} CleanSplit(u: Unicode, a: string, b: string, c: char)
    ensures Clean(u, a + b) == Clean(u, a) + Clean(u, b)
    ensures Clean(u, [c]) == if u.isControl(c) then [] else [u.lower(c)]
  {
    assert [c][..0] == [] && Clean(u, []) == [];
    if b == [] {
      assert a + b == a;
    } else {
      CleanSplit(u, a, b[..|b| - 1], c);
      assert (a + b)[..|a + b| - 1] == a + b[..|b| - 1];
    }
  }

  lemma {:induction false} CleanAllAppend(u: Unicode, ps: seq<string>, qs: seq<string>)
    ensures CleanAll(u, ps + qs) == CleanAll(u, ps) + CleanAll(u, qs)
  {
    if qs == [] {
      assert ps + qs == ps;
    } else {
      CleanAllAppend(u, ps, qs[..|qs| - 1]);
      assert (ps + qs)[..|ps + qs| - 1] == ps + qs[..|qs| - 1];
    }
  }

  /** What the tokens of a query are: white space separates, and each stretch without any is cleaned or dropped. */
  lemma TokensSplit(u: Unicode, a: string, c: char, b: string)
    ensures u.isSpace(c) ==> Tokens(u, a + [c] + b) == Tokens(u, a) + Tokens(u, b)
    ensures SpaceFree(u, a) ==> Tokens(u, a) == if Clean(u, a) == "" then [] else [Clean(u, a)]
  {
    FieldsSplit(u, a, c, b);
    if u.isSpace(c) {
      CleanAllAppend(u, Fields(u, a), Fields(u, b));
      NonEmptyAppend(CleanAll(u, Fields(u, a)), CleanAll(u, Fields(u, b)));
    }
    if SpaceFree(u, a) {
      assert NonEmpty([]) == [] && [a][..0] == [] && [Clean(u, a)][..0] == [];
      assert CleanAll(u, [a]) == [Clean(u, a)];
    }
  }

  // ---------- the one-pass loop ----------

  /** The cleaned stretches between white-space runes, empty ones included. */
  function CleanPieces(u: Unicode, s: string): (ps: seq<string>)
    ensures |ps| > 0
  {
    CleanAll(u, Pieces(u, s))
  }

  /** How they grow by one rune. */
  function CleanGrow(u: Unicode, ps: seq<string>, c: char): (r: seq<string>)
    requires |ps| > 0
    ensures |r| > 0
  {
    if u.isSpace(c) then ps + [[]]
    else if u.isControl(c) then ps
    else ps[..|ps| - 1] + [ps[|ps| - 1] + [u.lower(c)]]
  }

  /** What the loop holds once the cleaned pieces read so far are `ps`. */
  ghost predicate Holds(u: Unicode, ps: seq<string>, builder: string, previousWasSpace: bool)
    requires |ps| > 0
  {
    var ts := NonEmpty(ps);
    && AreTokens(u, ts)
    && builder == Join(ts) + (if previousWasSpace then " " else "")
    && previousWasSpace == (ts != [] && ps[|ps| - 1] == [])
  }

  method Query(u: Unicode, raw: string) returns (normalized: string, ok: bool)
    ensures ok == Normalized(u, raw).Some?
    ensures normalized == if ok then Normalized(u, raw).value else ""
  {
    hide Normalized, CleanPieces, Holds, TrimSpace;
    var trimmed := TrimSpace(u, raw);
    NormalizedOfTrim(u, raw);
    ScanStart(u);
    if trimmed == "" {
      return "", false;
    }
    var builder := "";
    var previousWasSpace := false;
    assert trimmed[..0] == "";
    for i := 0 to |trimmed|
      invariant Holds(u, CleanPieces(u, trimmed[..i]), builder, previousWasSpace)
    {
      var r := trimmed[i];
      ghost var ps := CleanPieces(u, trimmed[..i]);
      assert trimmed[..i + 1] == trimmed[..i] + [r];
      CleanPiecesSnoc(u, trimmed[..i], r);
      if u.isSpace(r) {
        HoldsBlank(u, ps, builder, previousWasSpace);
        if |builder| > 0 && !previousWasSpace {
          builder := builder + [' '];
          previousWasSpace := true;
        }
        continue;
      }
      if u.isControl(r) {
        continue;
      }
      HoldsRune(u, ps, builder, previousWasSpace, u.lower(r));
      builder := builder + [u.lower(r)];
      previousWasSpace := false;
    }
    assert trimmed[..|trimmed|] == trimmed;
    ScanEnd(u, trimmed, builder, previousWasSpace);
    normalized := TrimSpace(u, builder);
    if normalized == "" {
      return "", false;
    }
    return normalized, true;
  }

  lemma NormalizedOfTrim(u: Unicode, raw: string)
    ensures Normalized(u, TrimSpace(u, raw)) == Normalized(u, raw)
  {
    FieldsOfTrim(u, raw);
  }

  lemma ScanStart(u: Unicode)
    ensures Normalized(u, "") == None
    ensures Holds(u, CleanPieces(u, ""), "", false)
  {
    assert CleanPieces(u, "") == [[]];
    assert NonEmpty([[]]) == [];
  }

  lemma CleanSnoc(u: Unicode, s: string, c: char)
    ensures Clean(u, s + [c]) == if u.isControl(c) then Clean(u, s) else Clean(u, s) + [u.lower(c)]
  {
    assert (s + [c])[..|s|] == s;
  }

  lemma CleanAllSnoc(u: Unicode, ps: seq<string>, p: string)
    ensures CleanAll(u, ps + [p]) == CleanAll(u, ps) + [Clean(u, p)]
  {
    assert (ps + [p])[..|ps|] == ps;
  }

  lemma CleanPiecesSnoc(u: Unicode, s: string, c: char)
    ensures CleanPieces(u, s + [c]) == CleanGrow(u, CleanPieces(u, s), c)
  {
    var ps := Pieces(u, s);
    var front, last := ps[..|ps| - 1], ps[|ps| - 1];
    assert ps == front + [last];
    PiecesSnoc(u, s, c);
    CleanAllSnoc(u, front, last);
    if u.isSpace(c) {
      CleanAllSnoc(u, ps, []);
    } else {
      CleanAllSnoc(u, front, last + [c]);
      CleanSnoc(u, last, c);
    }
  }

  /** A white-space rune starts a new piece and at most one blank. */
  lemma HoldsBlank(u: Unicode, ps: seq<string>, builder: string, previousWasSpace: bool)
    requires |ps| > 0 && Holds(u, ps, builder, previousWasSpace)
    ensures |builder| > 0 && !previousWasSpace ==> Holds(u, ps + [[]], builder + [' '], true)
    ensures |builder| == 0 || previousWasSpace ==> Holds(u, ps + [[]], builder, previousWasSpace)
  {
    NonEmptySnoc(ps, []);
    if NonEmpty(ps) != [] { JoinEnds(u, NonEmpty(ps)); }
  }

  /** Any other rune extends the last piece, after the pending blank if there is one. */
  lemma HoldsRune(u: Unicode, ps: seq<string>, builder: string, previousWasSpace: bool, c: char)
    requires |ps| > 0 && Holds(u, ps, builder, previousWasSpace) && !u.isSpace(c)
    ensures Holds(u, ps[..|ps| - 1] + [ps[|ps| - 1] + [c]], builder + [c], false)
  {
    hide NonEmpty, Join;
    var front, last := ps[..|ps| - 1], ps[|ps| - 1];
    assert ps == front + [last];
    NonEmptySnoc(front, last);
    NonEmptySnoc(front, last + [c]);
    TokensSnoc(u, NonEmpty(front), last, c);
    JoinGrow(NonEmpty(front), last, c);
  }

  lemma JoinGrow(before: seq<string>, last: string, c: char)
    ensures Join(before + [last + [c]]) ==
            (if last != [] then Join(before + [last]) else if before != [] then Join(before) + " " else "") + [c]
    ensures Join([]) == ""
  {
    JoinSnoc(before, last + [c]);
    JoinSnoc(before, last);
    if last == [] {
      assert last + [c] == [c];
    } else if before != [] {
      assert Join(before) + " " + (last + [c]) == (Join(before) + " " + last) + [c];
    }
  }

  lemma TokensSnoc(u: Unicode, before: seq<string>, last: string, c: char)
    requires AreTokens(u, if last == [] then before else before + [last]) && !u.isSpace(c)
    ensures AreTokens(u, before + [last + [c]])
  {
    var ts := before + [last];
    assert last == ts[|before|];
    assert forall i :: 0 <= i < |before| ==> before[i] == ts[i];
  }

  lemma ScanEnd(u: Unicode, s: string, builder: string, previousWasSpace: bool)
    requires Holds(u, CleanPieces(u, s), builder, previousWasSpace)
    ensures Normalized(u, s) == if TrimSpace(u, builder) == "" then None else Some(TrimSpace(u, builder))
  {
    CleanAllOfNonEmpty(u, Pieces(u, s));
    var ts := Tokens(u, s);
    assert ts == NonEmpty(CleanPieces(u, s));
    if ts == [] {
      assert builder == "";
    } else {
      JoinEnds(u, ts);
      if previousWasSpace {
        TrimTrailing(u, Join(ts), ' ');
        assert builder == Join(ts) + [' '];
      } else {
        TrimIdentity(u, Join(ts));
        assert builder == Join(ts);
      }
    }
  }

  /** Dropping empty pieces before cleaning changes nothing, since an empty piece cleans to an empty piece. */
  lemma {:induction false} CleanAllOfNonEmpty(u: Unicode, ps: seq<string>)
    ensures NonEmpty(CleanAll(u, NonEmpty(ps))) == NonEmpty(CleanAll(u, ps))
  {
    if ps != [] {
      var front, last := ps[..|ps| - 1], ps[|ps| - 1];
      CleanAllOfNonEmpty(u, front);
      assert ps == front + [last];
      CleanAllSnoc(u, front, last);
      NonEmptyAppend(CleanAll(u, front), [Clean(u, last)]);
      if last != [] {
        CleanAllSnoc(u, NonEmpty(front), last);
        NonEmptyAppend(CleanAll(u, NonEmpty(front)), [Clean(u, last)]);
      }
    }
  }

  // ---------- canonical form ----------

  predicate Plain(u: Unicode, s: string) {
    forall i :: 0 <= i < |s| ==> !u.isSpace(s[i]) && !u.isControl(s[i]) && u.lower(s[i]) == s[i]
  }

  predicate AllPlain(u: Unicode, ts: seq<string>) {
    forall i :: 0 <= i < |ts| ==> Plain(u, ts[i])
  }

  lemma {:induction false} CleanIsPlain(u: Unicode, s: string)
    requires SpaceFree(u, s)
    ensures Plain(u, Clean(u, s)) && |Clean(u, s)| <= |s|
  {
    if s != [] { CleanIsPlain(u, s[..|s| - 1]); }
  }

  lemma {:induction false} CleanOfPlain(u: Unicode, s: string)
    requires Plain(u, s)
    ensures Clean(u, s) == s
  {
    if s != [] { CleanOfPlain(u, s[..|s| - 1]); }
  }

  lemma {:induction false} CleanAllIsPlain(u: Unicode, ps: seq<string>)
    requires AllSpaceFree(u, ps)
    ensures AllPlain(u, CleanAll(u, ps))
  {
    if ps != [] {
      CleanAllIsPlain(u, ps[..|ps| - 1]);
      CleanIsPlain(u, ps[|ps| - 1]);
    }
  }

  lemma {:induction false} CleanAllOfPlain(u: Unicode, ps: seq<string>)
    requires AllPlain(u, ps)
    ensures CleanAll(u, ps) == ps
  {
    hide Clean;
    if ps != [] {
      CleanAllOfPlain(u, ps[..|ps| - 1]);
      CleanOfPlain(u, ps[|ps| - 1]);
    }
  }

  lemma {:induction false} NonEmptyPlain(u: Unicode, ps: seq<string>)
    requires AllPlain(u, ps)
    ensures AllPlain(u, NonEmpty(ps)) && AreTokens(u, NonEmpty(ps))
  {
    if ps != [] { NonEmptyPlain(u, ps[..|ps| - 1]); }
  }

  lemma TokensArePlain(u: Unicode, s: string)
    ensures AreTokens(u, Tokens(u, s))
    ensures AllPlain(u, Tokens(u, s))
  {
    FieldsAreTokens(u, s);
    CleanAllIsPlain(u, Fields(u, s));
    NonEmptyPlain(u, CleanAll(u, Fields(u, s)));
  }

  /** Normalising the joined tokens finds the same tokens again. */
  lemma TokensOfJoin(u: Unicode, ts: seq<string>)
    requires AreTokens(u, ts) && AllPlain(u, ts)
    ensures Tokens(u, Join(ts)) == ts
  {
    FieldsOfJoin(u, ts);
    CleanAllOfPlain(u, ts);
    NonEmptyIdentity(ts);
  }

  /** Two queries have the same canonical form exactly when their cleaned token lists agree. */
  lemma SameFormIffSameTokens(u: Unicode, a: string, b: string)
    ensures Normalized(u, a) == Normalized(u, b) <==> Tokens(u, a) == Tokens(u, b)
  {
    TokensArePlain(u, a);
    TokensArePlain(u, b);
    TokensOfJoin(u, Tokens(u, a));
    TokensOfJoin(u, Tokens(u, b));
  }

  /** The canonical form is a fixed point of normalising and of trimming, and is its fields joined by blanks. */
  lemma NormalizedIsFixed(u: Unicode, raw: string)
    requires Normalized(u, raw).Some?
    ensures var n := Normalized(u, raw).value;
            && n != ""
            && Normalized(u, n) == Some(n)
            && TrimSpace(u, n) == n
            && Fields(u, n) == Tokens(u, raw)
            && Join(Fields(u, n)) == n
  {
    var ts := Tokens(u, raw);
    TokensArePlain(u, raw);
    TokensOfJoin(u, ts);
    FieldsOfJoin(u, ts);
    JoinEnds(u, ts);
    TrimIdentity(u, Join(ts));
  }

  /** Every rune of a canonical form is a plain rune or a single blank between two plain ones. */
  predicate Canonical(u: Unicode, n: string) {
    && n != ""
    && (forall i :: 0 <= i < |n| ==> n[i] == ' ' || (!u.isSpace(n[i]) && !u.isControl(n[i]) && u.lower(n[i]) == n[i]))
    && (forall i :: 0 <= i < |n| && n[i] == ' ' ==> 0 < i < |n| - 1 && n[i - 1] != ' ' && n[i + 1] != ' ')
  }

  lemma {:induction false} JoinIsCanonical(u: Unicode, ts: seq<string>)
    requires AreTokens(u, ts) && ts != []
    requires AllPlain(u, ts)
    ensures Canonical(u, Join(ts))
  {
    var front, last := ts[..|ts| - 1], ts[|ts| - 1];
    if |ts| > 1 {
      JoinIsCanonical(u, front);
      JoinEnds(u, front);
      var f := Join(front);
      assert Join(ts) == f + " " + last;
      assert f[|f| - 1] != ' ';
    }
  }

  function TotalLength(ps: seq<string>): nat {
    if ps == [] then 0 else TotalLength(ps[..|ps| - 1]) + |ps[|ps| - 1]|
  }

  lemma TotalSnoc(ps: seq<string>, p: string)
    ensures TotalLength(ps + [p]) == TotalLength(ps) + |p|
  {
    assert (ps + [p])[..|ps|] == ps;
  }

  lemma {:induction false} PiecesLength(u: Unicode, s: string)
    ensures TotalLength(Pieces(u, s)) + |Pieces(u, s)| == |s| + 1
  {
    if s == [] {
      TotalSnoc([], []);
    } else {
      var ps, c := Pieces(u, s[..|s| - 1]), s[|s| - 1];
      var front, last := ps[..|ps| - 1], ps[|ps| - 1];
      PiecesLength(u, s[..|s| - 1]);
      assert ps == front + [last];
      TotalSnoc(ps, []);
      TotalSnoc(front, last);
      TotalSnoc(front, last + [c]);
    }
  }

  lemma {:induction false} JoinLength(ts: seq<string>)
    requires ts != []
    ensures |Join(ts)| + 1 == TotalLength(ts) + |ts|
  {
    if |ts| > 1 {
      JoinLength(ts[..|ts| - 1]);
    } else {
      assert ts[..0] == [];
    }
  }

  lemma {:induction false} CleaningShortens(u: Unicode, ps: seq<string>)
    requires AllSpaceFree(u, ps)
    ensures var ts := NonEmpty(CleanAll(u, ps)); TotalLength(ts) + |ts| <= TotalLength(ps) + |ps|
  {
    if ps != [] {
      var front, last := ps[..|ps| - 1], ps[|ps| - 1];
      CleaningShortens(u, front);
      CleanIsPlain(u, last);
      var cs := CleanAll(u, ps);
      assert cs[..|cs| - 1] == CleanAll(u, front);
      var kept := NonEmpty(CleanAll(u, front));
      assert (kept + [Clean(u, last)])[..|kept|] == kept;
    }
  }

  /** The canonical form is well shaped and never longer than the trimmed input. */
  lemma NormalizedIsCanonical(u: Unicode, raw: string)
    requires Normalized(u, raw).Some?
    ensures Canonical(u, Normalized(u, raw).value)
    ensures 1 <= |Normalized(u, raw).value| <= |TrimSpace(u, raw)|
  {
    var ts := Tokens(u, raw);
    TokensArePlain(u, raw);
    JoinIsCanonical(u, ts);
    var trimmed := TrimSpace(u, raw);
    FieldsOfTrim(u, raw);
    CleanAllOfNonEmpty(u, Pieces(u, trimmed));
    PiecesSpaceFree(u, trimmed);
    CleaningShortens(u, Pieces(u, trimmed));
    PiecesLength(u, trimmed);
    JoinLength(ts);
  }

  /** Exactly the canonical strings are fixed points. */
  lemma FixedIffCanonical(u: Unicode, n: string)
    ensures Normalized(u, n) == Some(n) <==> Canonical(u, n)
  {
    if Normalized(u, n) == Some(n) {
      NormalizedIsCanonical(u, n);
    }
    if Canonical(u, n) {
      CanonicalPieces(u, n, |n|);
      assert n[..|n|] == n;
      NonEmptyIdentity(Pieces(u, n));
      CleanAllOfPlain(u, Pieces(u, n));
      JoinOfPieces(u, n);
    }
  }

  /** Plain pieces, all but the last of them non-empty. */
  predicate Neat(u: Unicode, ps: seq<string>) {
    && AllPlain(u, ps)
    && (forall i :: 0 <= i < |ps| - 1 ==> ps[i] != [])
  }

  lemma NeatGrow(u: Unicode, ps: seq<string>, c: char)
    requires |ps| > 0 && Neat(u, ps)
    requires if c == ' ' then ps[|ps| - 1] != [] else !u.isSpace(c) && !u.isControl(c) && u.lower(c) == c
    ensures var r := Grow(u, ps, c); Neat(u, r) && (r[|r| - 1] == [] <==> c == ' ')
  {
    assert c != ' ' ==> Plain(u, ps[|ps| - 1] + [c]);
  }

  lemma {:induction false} CanonicalPieces(u: Unicode, n: string, k: nat)
    requires Canonical(u, n) && k <= |n|
    ensures var ps := Pieces(u, n[..k]);
            Neat(u, ps) && (ps[|ps| - 1] == [] <==> k == 0 || n[k - 1] == ' ')
  {
    if k > 0 {
      CanonicalPieces(u, n, k - 1);
      assert n[..k] == n[..k - 1] + [n[k - 1]];
      PiecesSnoc(u, n[..k - 1], n[k - 1]);
      NeatGrow(u, Pieces(u, n[..k - 1]), n[k - 1]);
    }
  }

  /** When the only white space is the blank, the pieces joined by blanks give the string back. */
  lemma {:induction false} JoinOfPieces(u: Unicode, s: string)
    requires forall i :: 0 <= i < |s| && u.isSpace(s[i]) ==> s[i] == ' '
    ensures Join(Pieces(u, s)) == s
  {
    if s != [] {
      var s', c := s[..|s| - 1], s[|s| - 1];
      JoinOfPieces(u, s');
      assert s == s' + [c];
      var ps := Pieces(u, s');
      if u.isSpace(c) {
        assert (ps + [[]])[..|ps|] == ps;
      } else {
        var front, last := ps[..|ps| - 1], ps[|ps| - 1];
        assert (front + [last + [c]])[..|front|] == front;
      }
    }
  }
}
