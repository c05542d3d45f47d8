/** internal/privacy/filter.go: the card rule (the Luhn check of ISO/IEC 7812-1, Annex B) and where it sits. */
module Privacy {
  import opened Text

  // ---------- the check ----------

  predicate IsDigit(c: char) {
    '0' <= c <= '9'
  }

  predicate AllDigits(s: string) {
    forall i :: 0 <= i < |s| ==> IsDigit(s[i])
  }

  function Value(c: char): (d: int)
    requires IsDigit(c)
    ensures 0 <= d <= 9
  {
    c as int - '0' as int
  }

  /** Annex B: a doubled digit contributes the sum of the digits of its double. */
  function Doubled(d: int): int
    requires 0 <= d <= 9
  {
    2 * d / 10 + 2 * d % 10
  }

  function Weight(c: char, double: bool): (w: int)
    requires IsDigit(c)
    ensures 0 <= w <= 9
  {
    if double then Doubled(Value(c)) else Value(c)
  }

  /** Whether the digit at `i` is doubled: every second one, counting from the right. */
  predicate IsDoubled(n: nat, i: nat)
    requires i < n
  {
    (n - 1 - i) % 2 == 1
  }

  /** The contributions of the digits from position `i` on. */
  function SumFrom(s: string, i: nat): int
    requires AllDigits(s) && i <= |s|
    decreases |s| - i
  {
    if i == |s| then 0 else Weight(s[i], IsDoubled(|s|, i)) + SumFrom(s, i + 1)
  }

  function LuhnSum(s: string): int
    requires AllDigits(s)
  {
    SumFrom(s, 0)
  }

  predicate Luhn(s: string) {
    AllDigits(s) && 13 <= |s| <= 19 && LuhnSum(s) % 10 == 0
  }

  method LuhnValid(digits: string) returns (valid: bool)
    requires AllDigits(digits)
    ensures valid == Luhn(digits)
  {
    hide Doubled;
    if |digits| < 13 || |digits| > 19 {
      return false;
    }
    var sum := 0;
    var double := false;
    var i := |digits| - 1;
    while i >= 0
      invariant -1 <= i < |digits|
      invariant double == ((|digits| - 1 - i) % 2 == 1)
      invariant sum == SumFrom(digits, i + 1)
    {
      var digit := Value(digits[i]);
      DoubledValue(digit);
      if double {
        digit := digit * 2;
        if digit > 9 {
          digit := digit - 9;
        }
      }
      sum := sum + digit;
      double := !double;
      i := i - 1;
    }
    return sum % 10 == 0;
  }

  // ---------- the check of Annex B, from the right and in digits ----------

  /** The digits counted from the right, every second one doubled, with the digits of a two-digit double added up. */
  function DoubleAddDouble(s: string, double: bool): int
    requires forall i :: 0 <= i < |s| ==> '0' <= s[i] <= '9'
  {
    if s == "" then 0 else
      var d := s[|s| - 1] as int - '0' as int;
      var twice := d + d;
      (if !double then d else if twice >= 10 then 1 + (twice - 10) else twice) + DoubleAddDouble(s[..|s| - 1], !double)
  }

  lemma {:induction false} SumFromRight(s: string)
    requires AllDigits(s)
    ensures DoubleAddDouble(s, false) == SumFrom(s, 0) && DoubleAddDouble(s, true) == Shifted(s, 0)
  {
    hide Doubled, DoubleAddDouble, SumFrom, Shifted, Weight;
    if s == "" {
      NoDigits();
    } else {
      var front, c := s[..|s| - 1], s[|s| - 1];
      SumFromRight(front);
      LastDigit(front, c);
      SumOfPrefix(front, c, 0);
      ShiftedOfPrefix(front, c, 0);
      assert s == front + [c];
    }
  }

  lemma NoDigits()
    ensures DoubleAddDouble("", false) == SumFrom("", 0) && DoubleAddDouble("", true) == Shifted("", 0)
  {
  }

  lemma LastDigit(front: string, c: char)
    requires AllDigits(front) && IsDigit(c)
    ensures DoubleAddDouble(front + [c], false) == Value(c) + DoubleAddDouble(front, true)
    ensures DoubleAddDouble(front + [c], true) == Doubled(Value(c)) + DoubleAddDouble(front, false)
  {
    hide Doubled;
    assert (front + [c])[..|front|] == front;
    DoubledValue(Value(c));
  }

  lemma {:induction false} ShiftedOfPrefix(s: string, c: char, i: nat)
    requires AllDigits(s) && IsDigit(c) && i <= |s|
    ensures Shifted(s + [c], i) == SumFrom(s, i) + Doubled(Value(c))
    decreases |s| - i
  {
    hide IsDoubled, Weight, Doubled;
    if i < |s| {
      ShiftedOfPrefix(s, c, i + 1);
      OneMoreAlternates(|s|, i);
    } else {
      assert Shifted(s + [c], |s| + 1) == 0;
      LastIsShifted(|s| + 1, c);
    }
  }

  lemma LastIsShifted(n: nat, c: char)
    requires n > 0 && IsDigit(c)
    ensures Weight(c, !IsDoubled(n, n - 1)) == Doubled(Value(c))
  {
  }

  /** ISO/IEC 7812-1, Annex B: a number of 13 to 19 digits passes when its double-add-double sum ends in 0. */
  lemma LuhnIsAnnexB(s: string)
    requires forall i :: 0 <= i < |s| ==> '0' <= s[i] <= '9'
    ensures Luhn(s) <==> 13 <= |s| <= 19 && DoubleAddDouble(s, false) % 10 == 0
  {
    hide SumFrom, DoubleAddDouble;
    SumFromRight(s);
  }

  /** Raising one digit by one raises the sum by one, or by two where it is doubled, save 4, whose double wraps. */
  lemma RaisedDigit(s: string, k: nat)
    requires forall i :: 0 <= i < |s| ==> '0' <= s[i] <= '9'
    requires k < |s| && s[k] != '9'
    ensures var t := s[k := (s[k] as int + 1) as char];
            DoubleAddDouble(t, false) - DoubleAddDouble(s, false) ==
            if (|s| - k) % 2 == 1 then 1 else if s[k] == '4' then -7 else 2
  {
    hide SumFrom, Doubled, DoubleAddDouble;
    var t := s[k := (s[k] as int + 1) as char];
    SumFromRight(s);
    SumFromRight(t);
    SumUpdate(s, t, 0, k);
    DoubledValue(Value(s[k]));
    DoubledValue(Value(t[k]));
  }

  lemma {:induction false} ZerosSum(s: string, double: bool)
    requires forall i :: 0 <= i < |s| ==> s[i] == '0'
    ensures DoubleAddDouble(s, double) == 0
  {
    if s != "" { ZerosSum(s[..|s| - 1], !double); }
  }

  /** Thirteen to nineteen zeros pass. */
  lemma ZerosPass(s: string)
    requires 13 <= |s| <= 19 && forall i :: 0 <= i < |s| ==> s[i] == '0'
    ensures Luhn(s)
  {
    ZerosSum(s, false);
    LuhnIsAnnexB(s);
  }

  // ---------- what it detects ----------

  lemma {:induction false} SumUpdate(s: string, t: string, i: nat, k: nat)
    requires AllDigits(s) && AllDigits(t) && |s| == |t| && i <= k < |s|
    requires forall j :: k < j < |s| ==> s[j] == t[j]
    requires forall j :: i <= j < k ==> s[j] == t[j]
    ensures SumFrom(t, i) - SumFrom(s, i) == Weight(t[k], IsDoubled(|s|, k)) - Weight(s[k], IsDoubled(|s|, k))
    decreases k - i
  {
    if i < k {
      SumUpdate(s, t, i + 1, k);
    } else {
      SumSame(s, t, k + 1);
    }
  }

  lemma {:induction false} SumSame(s: string, t: string, i: nat)
    requires AllDigits(s) && AllDigits(t) && |s| == |t| && i <= |s|
    requires forall j :: i <= j < |s| ==> s[j] == t[j]
    ensures SumFrom(t, i) == SumFrom(s, i)
    decreases |s| - i
  {
    if i < |s| { SumSame(s, t, i + 1); }
  }

  lemma DoubledValue(d: int)
    requires 0 <= d <= 9
    ensures Doubled(d) == if d <= 4 then 2 * d else 2 * d - 9
  {
  }

  /** Different digits contribute differently, doubled or not. */
  lemma WeightInjective(a: char, b: char, double: bool)
    requires IsDigit(a) && IsDigit(b) && Weight(a, double) == Weight(b, double)
    ensures a == b
  {
    hide Doubled;
    DoubledValue(Value(a));
    DoubledValue(Value(b));
    assert Value(a) == Value(b);
  }

  lemma ShiftedSum(sum: int, d: int)
    requires sum % 10 == 0
    ensures (sum + d) % 10 == 0 <==> d % 10 == 0
  {
  }

  /** Changing exactly one digit of an accepted number makes it rejected. */
  lemma OneWrongDigitIsDetected(s: string, k: nat, c: char)
    requires Luhn(s) && k < |s| && IsDigit(c) && c != s[k]
    ensures !Luhn(s[k := c])
  {
    hide SumFrom, Weight, IsDoubled;
    var t, double := s[k := c], IsDoubled(|s|, k);
    SumUpdate(s, t, 0, k);
    ShiftedSum(LuhnSum(s), Weight(c, double) - Weight(s[k], double));
    if Weight(c, double) == Weight(s[k], double) {
      WeightInjective(c, s[k], double);
    }
  }

  lemma NeighboursAlternate(n: nat, k: nat)
    requires k + 1 < n
    ensures IsDoubled(n, k + 1) == !IsDoubled(n, k)
  {
  }

  /** Swapping two neighbouring digits of an accepted number keeps it accepted only if they are equal or 0 and 9. */
  lemma SwapIsDetected(s: string, k: nat)
    requires Luhn(s) && k + 1 < |s|
    ensures Luhn(s[k := s[k + 1]][k + 1 := s[k]]) <==>
              s[k] == s[k + 1] || (s[k] == '0' && s[k + 1] == '9') || (s[k] == '9' && s[k + 1] == '0')
  {
    hide SumFrom, Weight, IsDoubled;
    var a, b, double := s[k], s[k + 1], IsDoubled(|s|, k);
    var m := s[k := b];
    var t := m[k + 1 := a];
    SumUpdate(s, m, 0, k);
    SumUpdate(m, t, 0, k + 1);
    NeighboursAlternate(|s|, k);
    SwapChangesSum(a, b, double);
    ShiftedSum(LuhnSum(s), Weight(b, double) - Weight(a, double) + Weight(a, !double) - Weight(b, !double));
  }

  lemma SwapChangesSum(a: char, b: char, double: bool)
    requires IsDigit(a) && IsDigit(b)
    ensures (Weight(b, double) - Weight(a, double) + Weight(a, !double) - Weight(b, !double)) % 10 == 0 <==>
              a == b || (a == '0' && b == '9') || (a == '9' && b == '0')
  {
    hide Doubled;
    var x, y := Value(a), Value(b);
    DoubledValue(x);
    DoubledValue(y);
    var f := if x <= 4 then x else x - 9;
    var g := if y <= 4 then y else y - 9;
    assert Weight(b, double) - Weight(a, double) + Weight(a, !double) - Weight(b, !double) ==
           if double then g - f else f - g;
    assert -8 <= f - g <= 8;
  }

  lemma {:induction false} SumOfPrefix(s: string, c: char, i: nat)
    requires AllDigits(s) && IsDigit(c) && i <= |s|
    ensures SumFrom(s + [c], i) == Shifted(s, i) + Value(c)
    decreases |s| - i
  {
    hide IsDoubled, Weight;
    if i < |s| {
      SumOfPrefix(s, c, i + 1);
      OneMoreAlternates(|s|, i);
    } else {
      assert SumFrom(s + [c], |s| + 1) == 0;
      LastCounts(|s| + 1, c);
    }
  }

  lemma OneMoreAlternates(n: nat, i: nat)
    requires i < n
    ensures IsDoubled(n + 1, i) == !IsDoubled(n, i)
  {
  }

  lemma LastCounts(n: nat, c: char)
    requires n > 0 && IsDigit(c)
    ensures Weight(c, IsDoubled(n, n - 1)) == Value(c)
  {
  }

  /** The contributions of a number's digits when one more digit will follow. */
  function Shifted(s: string, i: nat): int
    requires AllDigits(s) && i <= |s|
    decreases |s| - i
  {
    if i == |s| then 0 else Weight(s[i], !IsDoubled(|s|, i)) + Shifted(s, i + 1)
  }

  function CheckDigit(s: string): (d: int)
    requires AllDigits(s)
    ensures 0 <= d <= 9
  {
    (10 - Shifted(s, 0) % 10) % 10
  }

  /** Each prefix of 12 to 18 digits has exactly one accepting check digit. */
  lemma CheckDigitIsUnique(s: string, c: char)
    requires AllDigits(s) && 12 <= |s| <= 18 && IsDigit(c)
    ensures Luhn(s + [c]) <==> Value(c) == CheckDigit(s)
  {
    hide SumFrom, Shifted;
    SumOfPrefix(s, c, 0);
  }

  // ---------- the filter ----------

  function DigitsOf(s: string): (r: string)
    ensures AllDigits(r)
  {
    if s == [] then [] else
      var front := DigitsOf(s[..|s| - 1]);
      if IsDigit(s[|s| - 1]) then front + [s[|s| - 1]] else front
  }

  /** What collecting digits is, rune by rune. */
  lemma {:induction false} DigitsSplit(a: string, b: string, c: char)
    ensures DigitsOf(a + b) == DigitsOf(a) + DigitsOf(b)
    ensures DigitsOf([c]) == if '0' <= c <= '9' then [c] else ""
  {
    assert [c][..0] == [] && DigitsOf([]) == [];
    if b == [] {
      assert a + b == a;
    } else {
      DigitsSplit(a, b[..|b| - 1], c);
      assert (a + b)[..|a + b| - 1] == a + b[..|b| - 1];
    }
  }

  method AsciiDigits(s: string) returns (builder: string)
    ensures builder == DigitsOf(s)
  {
    builder := "";
    for i := 0 to |s|
      invariant builder == DigitsOf(s[..i])
    {
      assert s[..i + 1][..i] == s[..i];
      if '0' <= s[i] <= '9' {
        builder := builder + [s[i]];
      }
    }
    assert s[..|s|] == s;
  }

  datatype Rule = NoRule | Email | LikelyCard | LongDigitRun | LikelyPhone | HighDigitRatio

  /** The e-mail pattern and the letter and digit tables are parameters. */
  datatype Rules = Rules(email: string -> bool, isDigit: char -> bool, isLetter: char -> bool)

  /** Nine or more ASCII digits in a row. */
  predicate HasLongRun(s: string) {
    exists i :: 0 <= i <= |s| - 9 && RunAt(s, i)
  }

  predicate RunAt(s: string, i: nat)
    requires i + 9 <= |s|
  {
    AllDigits(s[i..i + 9])
  }

  function CountWhere(p: char -> bool, s: string): (n: nat)
    ensures n <= |s|
  {
    if s == [] then 0 else CountWhere(p, s[..|s| - 1]) + if p(s[|s| - 1]) then 1 else 0
  }

  /** What counting is, rune by rune. */
  lemma {:induction false} CountSplit(p: char -> bool, a: string, b: string, c: char)
    ensures CountWhere(p, a + b) == CountWhere(p, a) + CountWhere(p, b)
    ensures CountWhere(p, [c]) == if p(c) then 1 else 0
  {
    assert [c][..0] == [] && CountWhere(p, []) == 0;
    if b == [] {
      assert a + b == a;
    } else {
      CountSplit(p, a, b[..|b| - 1], c);
      assert (a + b)[..|a + b| - 1] == a + b[..|b| - 1];
    }
  }

  datatype CharStats = CharStats(runes: nat, digits: nat, letters: nat)

  /** Runes that are digits are not looked at as letters. */
  function StatsOf(rules: Rules, s: string): CharStats {
    CharStats(|s|, CountWhere(rules.isDigit, s), CountWhere(c => !rules.isDigit(c) && rules.isLetter(c), s))
  }

  method CharacterStats(rules: Rules, s: string) returns (stats: CharStats)
    ensures stats == StatsOf(rules, s)
    ensures stats.runes == |s| && stats.digits == CountWhere(rules.isDigit, s)
    ensures stats.letters == CountWhere(c => !rules.isDigit(c) && rules.isLetter(c), s)
  {
    ghost var letter := c => !rules.isDigit(c) && rules.isLetter(c);
    var runes, digits, letters := 0, 0, 0;
    for i := 0 to |s|
      invariant runes == i
      invariant digits == CountWhere(rules.isDigit, s[..i])
      invariant letters == CountWhere(letter, s[..i])
    {
      assert s[..i + 1][..i] == s[..i];
      runes := runes + 1;
      if rules.isDigit(s[i]) {
        digits := digits + 1;
      } else if rules.isLetter(s[i]) {
        letters := letters + 1;
      }
    }
    assert s[..|s|] == s;
    return CharStats(runes, digits, letters);
  }

  const TEL := "\U{0442}\U{0435}\U{043B}"
  const TELEFON := TEL + "\U{0435}\U{0444}\U{043E}\U{043D}"
  const NUMBER_OF := "\U{043D}\U{043E}\U{043C}\U{0435}\U{0440} "
  const MARKERS := [TEL, TELEFON, "phone", "mobile", NUMBER_OF + TELEFON + "\U{0430}"]

  predicate Contains(s: string, part: string) {
    exists i :: 0 <= i <= |s| - |part| && PartAt(s, part, i)
  }

  predicate PartAt(s: string, part: string, i: nat)
    requires i + |part| <= |s|
  {
    s[i..i + |part|] == part
  }

  predicate HasPhoneMarker(s: string) {
    exists i :: 0 <= i < |MARKERS| && Contains(s, MARKERS[i])
  }

  /** Of the five phone words three suffice: the others contain the first. */
  lemma PhoneMarkers(s: string)
    ensures HasPhoneMarker(s) <==> exists a: string, w: string, b: string ::
              s == a + w + b && w in ["\U{0442}\U{0435}\U{043B}", "phone", "mobile"]
  {
    if HasPhoneMarker(s) {
      var i :| 0 <= i < |MARKERS| && Contains(s, MARKERS[i]);
      var a, b := Around(s, MARKERS[i]);
      if i == 1 {
        assert MARKERS[1] == TEL + MARKERS[1][3..];
        assert s == a + TEL + (MARKERS[1][3..] + b);
      } else if i == 4 {
        assert MARKERS[4] == NUMBER_OF + TEL + MARKERS[4][|NUMBER_OF| + 3..];
        assert s == (a + NUMBER_OF) + TEL + (MARKERS[4][|NUMBER_OF| + 3..] + b);
      }
    }
    if a: string, w: string, b: string :| s == a + w + b && w in ["\U{0442}\U{0435}\U{043B}", "phone", "mobile"] {
      assert PartAt(s, w, |a|);
      assert MARKERS[0] == TEL && MARKERS[2] == "phone" && MARKERS[3] == "mobile";
    }
  }

  lemma Around(s: string, part: string) returns (a: string, b: string)
    requires Contains(s, part)
    ensures s == a + part + b
  {
    var i :| 0 <= i <= |s| - |part| && PartAt(s, part, i);
    a, b := s[..i], s[i + |part|..];
  }

  predicate PhoneRune(u: Unicode, rules: Rules, c: char) {
    rules.isDigit(c) || u.isSpace(c) || c in "+-()."
  }

  predicate LooksLikePhone(u: Unicode, rules: Rules, s: string, digits: nat) {
    && 10 <= digits <= 15
    && (HasPhoneMarker(s) ||
        (forall i :: 0 <= i < |s| ==> !rules.isLetter(s[i]) && PhoneRune(u, rules, s[i])))
  }

  /** At least ten digits that make up 40 per cent or more; the code compares the floating-point quotient. */
  predicate MostlyDigits(runes: nat, digits: nat) {
    runes > 0 && digits >= 10 && 5 * digits >= 2 * runes
  }

  /** What each rule says of a trimmed query, on its own. */
  predicate Matches(u: Unicode, rules: Rules, rule: Rule, q: string) {
    match rule
    case NoRule => false
    case Email => rules.email(q)
    case LikelyCard => Luhn(DigitsOf(q))
    case LongDigitRun => HasLongRun(q)
    case LikelyPhone => LooksLikePhone(u, rules, q, CountWhere(rules.isDigit, q))
    case HighDigitRatio => MostlyDigits(|q|, CountWhere(rules.isDigit, q))
  }

  const RULE_ORDER := [Email, LikelyCard, LongDigitRun, LikelyPhone, HighDigitRatio]

  predicate Sensitive(u: Unicode, rules: Rules, query: string) {
    var q := TrimSpace(u, query);
    q != "" && exists i :: 0 <= i < |RULE_ORDER| && Matches(u, rules, RULE_ORDER[i], q)
  }

  /** `rule` is the first in order that matches, if any does. */
  predicate FirstMatch(u: Unicode, rules: Rules, q: string, rule: Rule) {
    if rule == NoRule then forall i :: 0 <= i < |RULE_ORDER| ==> !Matches(u, rules, RULE_ORDER[i], q)
    else exists k :: 0 <= k < |RULE_ORDER| && RULE_ORDER[k] == rule && Matches(u, rules, rule, q) &&
                     forall i :: 0 <= i < k ==> !Matches(u, rules, RULE_ORDER[i], q)
  }

  /** What each rule looks for in a trimmed query. */
  lemma RulesMean(u: Unicode, rules: Rules, q: string)
    ensures Matches(u, rules, Email, q) <==> rules.email(q)
    ensures Matches(u, rules, LikelyCard, q) <==>
              13 <= |DigitsOf(q)| <= 19 && DoubleAddDouble(DigitsOf(q), false) % 10 == 0
    ensures Matches(u, rules, LongDigitRun, q) <==>
              exists a: string, b: string, c: string :: q == a + b + c && |b| == 9 && DigitsOf(b) == b
    ensures Matches(u, rules, LikelyPhone, q) <==>
              && 10 <= CountWhere(rules.isDigit, q) <= 15
              && (HasPhoneMarker(q) ||
                  forall i :: 0 <= i < |q| ==>
                    !rules.isLetter(q[i]) &&
                    (rules.isDigit(q[i]) || u.isSpace(q[i]) || q[i] in {'+', '-', '(', ')', '.'}))
    ensures Matches(u, rules, HighDigitRatio, q) <==>
              CountWhere(rules.isDigit, q) >= 10 && 5 * CountWhere(rules.isDigit, q) >= 2 * |q|
  {
    hide DoubleAddDouble, HasPhoneMarker, Luhn;
    LuhnIsAnnexB(DigitsOf(q));
    LongRunMeans(q);
  }

  lemma LongRunMeans(q: string)
    ensures HasLongRun(q) <==> exists a: string, b: string, c: string :: q == a + b + c && |b| == 9 && DigitsOf(b) == b
  {
    hide DigitsOf;
    if HasLongRun(q) {
      var i :| 0 <= i <= |q| - 9 && RunAt(q, i);
      DigitsOfDigits(q[i..i + 9]);
      assert q == q[..i] + q[i..i + 9] + q[i + 9..];
    }
    if a: string, b: string, c: string :| q == a + b + c && |b| == 9 && DigitsOf(b) == b {
      assert q[|a|..|a| + 9] == b;
      assert RunAt(q, |a|);
    }
  }

  lemma {:induction false} DigitsOfDigits(s: string)
    requires AllDigits(s)
    ensures DigitsOf(s) == s
  {
    if s != "" {
      DigitsOfDigits(s[..|s| - 1]);
      assert s == s[..|s| - 1] + [s[|s| - 1]];
    }
  }

  /** A query is sensitive exactly when one of the five rules matches, and the first of them names it. */
  lemma FirstMatchMeans(u: Unicode, rules: Rules, query: string, rule: Rule)
    ensures var q := TrimSpace(u, query);
            Sensitive(u, rules, query) <==>
              && q != ""
              && (|| Matches(u, rules, Email, q)
                  || Matches(u, rules, LikelyCard, q)
                  || Matches(u, rules, LongDigitRun, q)
                  || Matches(u, rules, LikelyPhone, q)
                  || Matches(u, rules, HighDigitRatio, q))
    ensures var q := TrimSpace(u, query);
            FirstMatch(u, rules, q, rule) <==>
              rule == (if Matches(u, rules, Email, q) then Email
                       else if Matches(u, rules, LikelyCard, q) then LikelyCard
                       else if Matches(u, rules, LongDigitRun, q) then LongDigitRun
                       else if Matches(u, rules, LikelyPhone, q) then LikelyPhone
                       else if Matches(u, rules, HighDigitRatio, q) then HighDigitRatio
                       else NoRule)
  {
    hide Matches, TrimSpace;
    assert RULE_ORDER[0] == Email && RULE_ORDER[1] == LikelyCard && RULE_ORDER[2] == LongDigitRun;
    assert RULE_ORDER[3] == LikelyPhone && RULE_ORDER[4] == HighDigitRatio;
    MatchesNamed(u, rules, TrimSpace(u, query));
  }

  lemma MatchesNamed(u: Unicode, rules: Rules, q: string)
    ensures !Matches(u, rules, NoRule, q)
  {
  }

  method LooksLikePhoneNumber(u: Unicode, rules: Rules, s: string, stats: CharStats) returns (phone: bool)
    ensures phone == LooksLikePhone(u, rules, s, stats.digits)
  {
    hide HasPhoneMarker, PhoneRune;
    if stats.digits < 10 || stats.digits > 15 {
      return false;
    }
    if HasPhoneMarker(s) {
      return true;
    }
    for i := 0 to |s|
      invariant forall j :: 0 <= j < i ==> !rules.isLetter(s[j])
    {
      if rules.isLetter(s[i]) {
        return false;
      }
    }
    for i := 0 to |s|
      invariant forall j :: 0 <= j < i ==> PhoneRune(u, rules, s[j])
    {
      if !PhoneRune(u, rules, s[i]) {
        return false;
      }
    }
    return true;
  }

  /** The rule a query is refused under. */
  method Inspect(u: Unicode, rules: Rules, query: string) returns (rule: Rule)
    ensures (rule != NoRule) == Sensitive(u, rules, query)
    ensures TrimSpace(u, query) != "" ==> FirstMatch(u, rules, TrimSpace(u, query), rule)
  {
    hide TrimSpace, Luhn, DigitsOf, HasLongRun, LooksLikePhone, CountWhere;
    var q := TrimSpace(u, query);
    if q == "" {
      return NoRule;
    }
    rule := FirstRule(u, rules, q);
    if rule != NoRule {
      var k :| 0 <= k < |RULE_ORDER| && RULE_ORDER[k] == rule;
      assert Matches(u, rules, RULE_ORDER[k], q);
    }
  }

  method FirstRule(u: Unicode, rules: Rules, q: string) returns (rule: Rule)
    requires q != ""
    ensures FirstMatch(u, rules, q, rule)
  {
    hide Luhn, DigitsOf, HasLongRun, LooksLikePhone, CountWhere;
    if rules.email(q) {
      assert RULE_ORDER[0] == Email;
      return Email;
    }
    var digits := AsciiDigits(q);
    if |digits| >= 13 && |digits| <= 19 {
      var valid := LuhnValid(digits);
      if valid {
        assert RULE_ORDER[1] == LikelyCard;
        return LikelyCard;
      }
    }
    LuhnLength(digits);
    if HasLongRun(q) {
      assert RULE_ORDER[2] == LongDigitRun;
      return LongDigitRun;
    }
    var stats := CharacterStats(rules, q);
    var phone := LooksLikePhoneNumber(u, rules, q, stats);
    if phone {
      assert RULE_ORDER[3] == LikelyPhone;
      return LikelyPhone;
    }
    if stats.runes != 0 && stats.digits >= 10 && 5 * stats.digits >= 2 * stats.runes {
      assert RULE_ORDER[4] == HighDigitRatio;
      return HighDigitRatio;
    }
    return NoRule;
  }

  lemma LuhnLength(digits: string)
    ensures Luhn(digits) ==> 13 <= |digits| <= 19
  {
  }

  method ContainsSensitiveData(u: Unicode, rules: Rules, query: string) returns (sensitive: bool)
    ensures sensitive == Sensitive(u, rules, query)
  {
    var rule := Inspect(u, rules, query);
    return rule != NoRule;
  }

  lemma EmptyIsClean(rules: Rules)
    ensures DigitsOf("") == "" && CountWhere(rules.isDigit, "") == 0
    ensures !exists a: string, b: string, c: string :: "" == a + b + c && |b| == 9 && DigitsOf(b) == b
  {
  }

  /** A query that is not sensitive carries no card number, no nine digits in a row, and mostly other runes. */
  lemma InsensitiveIsClean(u: Unicode, rules: Rules, q: string)
    requires !Sensitive(u, rules, q) && TrimSpace(u, q) == q
    ensures !(13 <= |DigitsOf(q)| <= 19 && DoubleAddDouble(DigitsOf(q), false) % 10 == 0)
    ensures !exists a: string, b: string, c: string :: q == a + b + c && |b| == 9 && DigitsOf(b) == b
    ensures CountWhere(rules.isDigit, q) >= 10 ==> 5 * CountWhere(rules.isDigit, q) < 2 * |q|
  {
    hide *;
    EmptyIsClean(rules);
    FirstMatchMeans(u, rules, q, NoRule);
    RulesMean(u, rules, q);
  }
}
