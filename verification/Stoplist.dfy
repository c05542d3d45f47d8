/** internal/stoplist: the stop-list, the file behind it and the service that keeps the two in step. */
module Stoplist {
  import opened Wrappers
  import opened Text
  import opened Ordering
  import opened Normalize

  // ---------- terms and their index ----------

  /** The published snapshot: all terms, and those that are a single word. */
  datatype Snapshot = Snapshot(exact: set<string>, tokens: set<string>)

  /** The normalised terms of a raw list; what normalises to nothing is skipped. */
  function TermSet(u: Unicode, raw: seq<string>): set<string> {
    set r | r in raw && Normalized(u, r).Some? :: Normalized(u, r).value
  }

  /** The index a set of terms should have. */
  function IndexOf(u: Unicode, terms: set<string>): Snapshot {
    Snapshot(terms, set t | t in terms && |Fields(u, t)| == 1)
  }

  predicate Settled(u: Unicode, terms: set<string>) {
    forall t :: t in terms ==> Normalized(u, t) == Some(t)
  }

  /** The strictly sorted listing of a set of terms. */
  ghost function Listing(terms: set<string>): seq<string> {
    StringLessIsStrictTotal();
    Ranked(StringLess, multiset(terms))
  }

  predicate ContainsNormalized(u: Unicode, s: Snapshot, term: string) {
    var tokens := Fields(u, term);
    term in s.exact || exists i :: 0 <= i < |tokens| && tokens[i] in s.tokens
  }

  predicate Suppresses(u: Unicode, s: Snapshot, raw: string) {
    match Normalized(u, raw)
    case None => false
    case Some(term) => ContainsNormalized(u, s, term)
  }

  lemma TermSetSettled(u: Unicode, raw: seq<string>)
    ensures Settled(u, TermSet(u, raw))
  {
    forall r | r in raw && Normalized(u, r).Some? ensures Normalized(u, Normalized(u, r).value) == Normalized(u, r) {
      NormalizedIsFixed(u, r);
    }
  }

  lemma TermSetMembers(u: Unicode, raw: seq<string>, t: string)
    ensures t in TermSet(u, raw) <==> exists i :: 0 <= i < |raw| && Normalized(u, raw[i]) == Some(t)
  {
    hide Normalized;
    if t in TermSet(u, raw) {
      var r :| r in raw && Normalized(u, r) == Some(t);
      var i :| 0 <= i < |raw| && raw[i] == r;
    }
  }

  lemma TermSetOfSettled(u: Unicode, raw: seq<string>, terms: set<string>)
    requires Settled(u, terms) && forall t :: t in raw <==> t in terms
    ensures TermSet(u, raw) == terms
  {
    forall t | t in terms ensures t in TermSet(u, raw) {
      assert t in raw && Normalized(u, t).value == t;
    }
  }

  lemma ListingMembers(terms: set<string>)
    ensures forall t :: t in Listing(terms) <==> t in terms
    ensures forall i, j :: 0 <= i < j < |Listing(terms)| ==> StringLess(Listing(terms)[i], Listing(terms)[j])
  {
    StringLessIsStrictTotal();
    var l := Listing(terms);
    forall t ensures t in l <==> t in terms { assert t in multiset(l) <==> t in multiset(terms); }
    forall i, j | 0 <= i < j < |l| ensures StringLess(l[i], l[j]) {
      TwiceCounts(l, i, j);
      assert multiset(terms)[l[i]] <= 1;
    }
  }

  lemma ListingSize(terms: set<string>)
    ensures |Listing(terms)| == |terms|
  {
    StringLessIsStrictTotal();
    assert |multiset(Listing(terms))| == |multiset(terms)|;
  }

  lemma TwiceCounts(l: seq<string>, i: nat, j: nat)
    requires i < j < |l|
    ensures l[i] == l[j] ==> multiset(l)[l[i]] >= 2
  {
    assert l == l[..i] + [l[i]] + l[i + 1..j] + [l[j]] + l[j + 1..];
  }

  /** Any strictly sorted list with the same members is the listing. */
  lemma ListingUnique(l: seq<string>, terms: set<string>)
    requires forall i, j :: 0 <= i < j < |l| ==> StringLess(l[i], l[j])
    requires forall t :: t in l <==> t in terms
    ensures l == Listing(terms)
  {
    hide StringLess;
    StringLessIsStrictTotal();
    forall i, j | 0 <= i < j < |l| ensures !StringLess(l[j], l[i]) && l[i] != l[j] {
      StringLessIrreflexive(l[i]);
      if StringLess(l[j], l[i]) { StringLessTransitive(l[i], l[j], l[i]); }
    }
    DistinctBag(l, terms);
    RankedUnique(StringLess, l);
  }

  lemma {:induction false} DistinctBag(l: seq<string>, terms: set<string>)
    requires forall i, j :: 0 <= i < j < |l| ==> l[i] != l[j]
    requires forall t :: t in l <==> t in terms
    ensures multiset(l) == multiset(terms)
  {
    if l == [] {
      assert terms == {};
    } else {
      var n := |l| - 1;
      var front, last := l[..n], l[n];
      assert l == front + [last];
      forall t ensures t in front <==> t in terms - {last} {
        assert t in l <==> t in front || t == last;
      }
      DistinctBag(front, terms - {last});
      assert terms == (terms - {last}) + {last};
    }
  }

  /** Publishing the listed terms again changes nothing. */
  lemma ReplaceOwnTerms(u: Unicode, terms: set<string>)
    requires Settled(u, terms)
    ensures IndexOf(u, TermSet(u, Listing(terms))) == IndexOf(u, terms)
  {
    ListingMembers(terms);
    TermSetOfSettled(u, Listing(terms), terms);
  }

  lemma {:induction false} FieldIsOneToken(u: Unicode, term: string, i: nat)
    requires i < |Fields(u, term)|
    ensures Fields(u, Fields(u, term)[i]) == [Fields(u, term)[i]]
  {
    var f := Fields(u, term)[i];
    FieldsAreTokens(u, term);
    FieldsOfJoin(u, [f]);
  }

  /** What the index means: a query is suppressed exactly when its canonical form or one of its words is a term. */
  lemma ContainsMeaning(u: Unicode, terms: set<string>, raw: string)
    ensures Suppresses(u, IndexOf(u, terms), raw) <==>
            && Normalized(u, raw).Some?
            && var n := Normalized(u, raw).value;
               n in terms || exists i :: 0 <= i < |Fields(u, n)| && Fields(u, n)[i] in terms
  {
    if Normalized(u, raw).Some? {
      var n := Normalized(u, raw).value;
      forall i | 0 <= i < |Fields(u, n)|
        ensures Fields(u, n)[i] in IndexOf(u, terms).tokens <==> Fields(u, n)[i] in terms
      {
        FieldIsOneToken(u, n, i);
      }
    }
  }

  /** Adding terms never un-suppresses a query, and spelling does not matter. */
  lemma ContainsMonotone(u: Unicode, terms: set<string>, more: set<string>, a: string, b: string)
    requires terms <= more && Tokens(u, a) == Tokens(u, b)
    ensures Suppresses(u, IndexOf(u, terms), a) ==> Suppresses(u, IndexOf(u, more), b)
  {
    SameFormIffSameTokens(u, a, b);
  }

  // ---------- loops over terms ----------

  method BuildSnapshot(u: Unicode, rawTerms: seq<string>) returns (s: Snapshot)
    ensures s == IndexOf(u, TermSet(u, rawTerms))
  {
    hide Normalized, Fields, Tokens;
    var exact: set<string> := {};
    var tokens: set<string> := {};
    for i := 0 to |rawTerms|
      invariant Snapshot(exact, tokens) == IndexOf(u, TermSet(u, rawTerms[..i]))
    {
      var term, ok := Query(u, rawTerms[i]);
      TermSetSnoc(u, rawTerms, i);
      if !ok {
        continue;
      }
      NormalizedIsFixed(u, rawTerms[i]);
      exact := exact + {term};
      var termTokens := Fields(u, term);
      if |termTokens| == 1 {
        JoinOfOne(termTokens);
        tokens := tokens + {termTokens[0]};
      }
    }
    assert rawTerms[..|rawTerms|] == rawTerms;
    return Snapshot(exact, tokens);
  }

  lemma JoinOfOne(ts: seq<string>)
    requires |ts| == 1
    ensures Join(ts) == ts[0]
  {
  }

  lemma TermSetSnoc(u: Unicode, raw: seq<string>, i: nat)
    requires i < |raw|
    ensures TermSet(u, raw[..i + 1]) ==
            TermSet(u, raw[..i]) + (if Normalized(u, raw[i]).Some? then {Normalized(u, raw[i]).value} else {})
  {
    hide Normalized;
    assert raw[..i + 1] == raw[..i] + [raw[i]];
    forall r ensures r in raw[..i + 1] <==> r in raw[..i] || r == raw[i] {
    }
  }

  /** The loop that `Load` and `Save` share: normalise, drop duplicates, sort. */
  method NormalizeTerms(u: Unicode, raw: seq<string>) returns (r: seq<string>)
    ensures r == Listing(TermSet(u, raw))
  {
    hide Normalized;
    var normalized: seq<string> := [];
    var seen: set<string> := {};
    for i := 0 to |raw|
      invariant seen == TermSet(u, raw[..i])
      invariant forall t :: t in normalized <==> t in seen
      invariant forall j, k :: 0 <= j < k < |normalized| ==> normalized[j] != normalized[k]
    {
      var term, ok := Query(u, raw[i]);
      TermSetSnoc(u, raw, i);
      if !ok {
        continue;
      }
      if term in seen {
        continue;
      }
      seen := seen + {term};
      normalized := normalized + [term];
    }
    assert raw[..|raw|] == raw;
    DistinctBag(normalized, seen);
    StringLessIsStrictTotal();
    r := Sort(StringLess, normalized);
  }

  /** The loop of `Remove` that leaves one term out. */
  method Without(current: seq<string>, term: string) returns (next: seq<string>)
    ensures forall t :: t in next <==> t in current && t != term
  {
    next := [];
    for i := 0 to |current|
      invariant forall t :: t in next <==> t in current[..i] && t != term
    {
      assert current[..i + 1] == current[..i] + [current[i]];
      if current[i] == term {
        continue;
      }
      next := next + [current[i]];
    }
    assert current[..|current|] == current;
  }

  /** `slices.BinarySearch` on the sorted terms. */
  method ContainsSorted(terms: seq<string>, term: string) returns (found: bool)
    requires forall i, j :: 0 <= i < j < |terms| ==> StringLess(terms[i], terms[j])
    ensures found == (term in terms)
  {
    hide StringLess;
    var lo, hi := 0, |terms|;
    while lo < hi
      invariant 0 <= lo <= hi <= |terms|
      invariant forall i :: 0 <= i < lo ==> StringLess(terms[i], term)
      invariant forall i :: hi <= i < |terms| ==> !StringLess(terms[i], term)
    {
      var mid := (lo + hi) / 2;
      BelowIsDownward(terms, mid, term);
      if StringLess(terms[mid], term) {
        lo := mid + 1;
      } else {
        hi := mid;
      }
    }
    found := lo < |terms| && terms[lo] == term;
    StringLessIrreflexive(term);
    if !found && lo < |terms| {
      BelowIsDownward(terms, lo, term);
      forall i | lo < i < |terms| ensures terms[i] != term {
        assert StringLess(terms[lo], terms[i]);
      }
    }
  }

  /** In a strictly sorted list the elements below a bound form a prefix. */
  lemma BelowIsDownward(terms: seq<string>, mid: nat, term: string)
    requires mid < |terms| && forall i, j :: 0 <= i < j < |terms| ==> StringLess(terms[i], terms[j])
    ensures StringLess(terms[mid], term) ==> forall i :: 0 <= i <= mid ==> StringLess(terms[i], term)
    ensures !StringLess(terms[mid], term) ==> forall i :: mid <= i < |terms| ==> !StringLess(terms[i], term)
  {
    hide StringLess;
    forall i | 0 <= i < mid && StringLess(terms[mid], term) ensures StringLess(terms[i], term) {
      StringLessTransitive(terms[i], terms[mid], term);
    }
    forall i | mid < i < |terms| && StringLess(terms[i], term) ensures StringLess(terms[mid], term) {
      StringLessTransitive(terms[mid], terms[i], term);
    }
  }

  // ---------- the service as a value ----------

  /** The file behind the list; only its terms matter. */
  datatype File = Missing | Unreadable | Corrupt | Stored(terms: seq<string>)

  datatype StopError = EmptyTerm | LoadFailed | SaveFailed

  datatype State = State(file: File, snapshot: Snapshot)

  predicate Readable(f: File) {
    f.Missing? || f.Stored?
  }

  /** The terms a restart would load. */
  function FileTerms(u: Unicode, f: File): set<string> {
    if f.Stored? then TermSet(u, f.terms) else {}
  }

  /** Disk, memory and index agree. */
  ghost predicate InStep(u: Unicode, s: State) {
    && Readable(s.file)
    && Settled(u, s.snapshot.exact)
    && s.snapshot == IndexOf(u, s.snapshot.exact)
    && FileTerms(u, s.file) == s.snapshot.exact
  }

  /** The operations of `Save`, each of which can fail; the last one cleans up after a failure. */
  datatype SaveStep = Encode | MakeDir | CreateTemp | Write | Sync | Close | Rename | RemoveTemp

  /** A save goes through when all that may fail is the cleaning up, which is then not needed. */
  predicate GoesThrough(fails: set<SaveStep>) {
    fails <= {RemoveTemp}
  }

  /** A call, and whether the save it attempts goes through. */
  datatype Call = AddTerm(raw: string, saves: bool) | RemoveTerm(raw: string, saves: bool) | Restart

  datatype Reply = Reply(term: string, changed: bool, error: Option<StopError>)

  /** The set the call leaves behind: one insertion, one deletion or nothing. */
  function SetAfter(u: Unicode, terms: set<string>, call: Call): set<string> {
    if call.Restart? || Normalized(u, call.raw).None? || !call.saves then terms
    else if call.AddTerm? then terms + {Normalized(u, call.raw).value}
    else terms - {Normalized(u, call.raw).value}
  }

  ghost function ReplyTo(u: Unicode, terms: set<string>, call: Call): Reply
    requires !call.Restart?
  {
    match Normalized(u, call.raw)
    case None => Reply("", false, Some(EmptyTerm))
    case Some(t) =>
      if (t in terms) == call.AddTerm? then Reply(t, false, None)
      else if !call.saves then Reply("", false, Some(SaveFailed))
      else Reply(t, true, None)
  }

  /** One call: the file is rewritten exactly when the set changes, and the snapshot is that of the new set. */
  ghost function StepState(u: Unicode, s: State, call: Call): State {
    match call
    case Restart =>
      if Readable(s.file) then State(s.file, IndexOf(u, FileTerms(u, s.file))) else s
    case _ =>
      var next := SetAfter(u, s.snapshot.exact, call);
      if next == s.snapshot.exact then s
      else State(Stored(Listing(next)), IndexOf(u, TermSet(u, Listing(next))))
  }

  /** One call, term by term: the named term enters or leaves when the save goes through, every other one stays. */
  lemma SetAfterMembers(u: Unicode, terms: set<string>, call: Call, t: string)
    ensures t in SetAfter(u, terms, call) <==>
            match call
            case AddTerm(raw, saves) => t in terms || (saves && Normalized(u, raw) == Some(t))
            case RemoveTerm(raw, saves) => t in terms && !(saves && Normalized(u, raw) == Some(t))
            case Restart => t in terms
  {
    hide Normalized;
  }

  /** The reply names the normalised term and says whether the set changed; only a save that was needed can fail. */
  lemma ReplyMeans(u: Unicode, terms: set<string>, call: Call)
    requires !call.Restart?
    ensures var reply, n := ReplyTo(u, terms, call), Normalized(u, call.raw);
            && (reply.error == Some(EmptyTerm) <==> n == None)
            && (reply.error == Some(SaveFailed) <==>
                  n.Some? && !call.saves && (call.AddTerm? <==> n.value !in terms))
            && (reply.error == None || reply.error == Some(EmptyTerm) || reply.error == Some(SaveFailed))
            && (reply.changed <==> SetAfter(u, terms, call) != terms)
            && reply.term == (if reply.error == None then n.value else "")
  {
    hide Normalized;
    var n := Normalized(u, call.raw);
    if n.Some? {
      SetAfterMembers(u, terms, call, n.value);
      if (n.value in terms) == call.AddTerm? {
        assert call.AddTerm? ==> terms + {n.value} == terms;
        assert call.RemoveTerm? ==> terms - {n.value} == terms;
      }
    }
  }

  lemma SetAfterSettled(u: Unicode, terms: set<string>, call: Call)
    requires Settled(u, terms)
    ensures Settled(u, SetAfter(u, terms, call))
  {
    hide Normalized;
    if !call.Restart? && Normalized(u, call.raw).Some? {
      NormalizedIsFixed(u, call.raw);
    }
  }

  lemma StepInStep(u: Unicode, s: State, call: Call)
    requires InStep(u, s)
    ensures InStep(u, StepState(u, s, call))
    ensures StepState(u, s, call).snapshot.exact == SetAfter(u, s.snapshot.exact, call)
  {
    hide Normalized, Listing, Fields;
    var next := SetAfter(u, s.snapshot.exact, call);
    SetAfterSettled(u, s.snapshot.exact, call);
    ListingMembers(next);
    TermSetOfSettled(u, Listing(next), next);
  }

  ghost function RunCalls(u: Unicode, s: State, calls: seq<Call>): State {
    if calls == [] then s else StepState(u, RunCalls(u, s, calls[..|calls| - 1]), calls[|calls| - 1])
  }

  function SetAfterAll(u: Unicode, terms: set<string>, calls: seq<Call>): set<string> {
    if calls == [] then terms else SetAfter(u, SetAfterAll(u, terms, calls[..|calls| - 1]), calls[|calls| - 1])
  }

  /**
   Over every run of additions, removals and restarts with any save failures, the
   list is the abstract set, disk and memory agree, and a restart changes nothing.
   */
  lemma {:induction false} RunStaysInStep(u: Unicode, s: State, calls: seq<Call>)
    requires InStep(u, s)
    ensures var r := RunCalls(u, s, calls);
            && InStep(u, r)
            && r.snapshot == IndexOf(u, SetAfterAll(u, s.snapshot.exact, calls))
            && StepState(u, r, Restart) == r
  {
    if calls != [] {
      var front := calls[..|calls| - 1];
      RunStaysInStep(u, s, front);
      StepInStep(u, RunCalls(u, s, front), calls[|calls| - 1]);
    }
  }

  // ---------- the objects ----------

  class StopList {
    const text: Unicode
    var current: Snapshot

    constructor (text: Unicode, terms: seq<string>)
      ensures this.text == text && current == IndexOf(text, TermSet(text, terms))
    {
      var snapshot := BuildSnapshot(text, terms);
      this.text, current := text, snapshot;
    }

    method Terms() returns (terms: seq<string>)
      ensures terms == Listing(current.exact)
    {
      StringLessIsStrictTotal();
      if |current.exact| == 0 {
        assert current.exact == {};
        return [];
      }
      terms := [];
      var todo := current.exact;
      while todo != {}
        invariant todo <= current.exact
        invariant multiset(terms) == multiset(current.exact - todo)
        decreases todo
      {
        var term :| term in todo;
        assert current.exact - (todo - {term}) == (current.exact - todo) + {term};
        todo := todo - {term};
        terms := terms + [term];
      }
      assert current.exact - {} == current.exact;
      terms := Sort(StringLess, terms);
    }

    method Replace(rawTerms: seq<string>)
      modifies this
      ensures current == IndexOf(text, TermSet(text, rawTerms))
    {
      current := BuildSnapshot(text, rawTerms);
    }
  }

  class FileStore {
    const text: Unicode
    var file: File
    /** Temporary files left behind. */
    var orphans: nat

    constructor (text: Unicode, file: File)
      ensures this.text == text && this.file == file && orphans == 0
    {
      this.text, this.file, orphans := text, file, 0;
    }

    method Load() returns (terms: seq<string>, error: Option<StopError>)
      ensures error == if file.Missing? || file.Stored? then None else Some(LoadFailed)
      ensures error == None ==> terms == Listing(FileTerms(text, file))
    {
      match file
      case Missing =>
        ListingUnique([], {});
        return [], None;
      case Unreadable => return [], Some(LoadFailed);
      case Corrupt => return [], Some(LoadFailed);
      case Stored(raw) =>
        terms := NormalizeTerms(text, raw);
        return terms, None;
    }

    /**
     Writes a temporary file and renames it into place.  `fails` holds the operations
     that fail when they are attempted.  A failed save leaves the file alone, and
     leaves a temporary file behind only if it was made and cannot be removed.
     */
    method Save(terms: seq<string>, fails: set<SaveStep>) returns (error: Option<StopError>)
      modifies this
      ensures error == if GoesThrough(fails) then None else Some(SaveFailed)
      ensures error == None <==> fails !! {Encode, MakeDir, CreateTemp, Write, Sync, Close, Rename}
      ensures file == if GoesThrough(fails) then Stored(Listing(TermSet(text, terms))) else old(file)
      ensures orphans == old(orphans) + if RemoveTemp in fails && !GoesThrough(fails) && MakesTemp(fails) then 1 else 0
    {
      hide Normalized, TermSet, Listing;
      var normalized := NormalizeTerms(text, terms);
      if Encode in fails || MakeDir in fails || CreateTemp in fails {
        return Some(SaveFailed);
      }
      var temp: seq<string> := [];
      orphans := orphans + 1;
      if Write in fails {
        RemoveTempFile(fails);
        return Some(SaveFailed);
      }
      temp := normalized;
      if Sync in fails || Close in fails || Rename in fails {
        RemoveTempFile(fails);
        return Some(SaveFailed);
      }
      forall step | step in fails ensures step == RemoveTemp {
      }
      file, orphans := Stored(temp), orphans - 1;
      return None;
    }

    method RemoveTempFile(fails: set<SaveStep>)
      requires orphans > 0
      modifies this`orphans
      ensures orphans == old(orphans) - if RemoveTemp in fails then 0 else 1
    {
      if RemoveTemp !in fails {
        orphans := orphans - 1;
      }
    }
  }

  /** The set `FileTerms` of a file that holds a listing, and of none. */
  lemma FileTermsMeans(u: Unicode, f: File, t: string)
    ensures t in FileTerms(u, f) <==>
              f.Stored? && exists i :: 0 <= i < |f.terms| && Normalized(u, f.terms[i]) == Some(t)
  {
    hide Normalized;
    if f.Stored? { TermSetMembers(u, f.terms, t); }
  }

  predicate MakesTemp(fails: set<SaveStep>) {
    fails !! {Encode, MakeDir, CreateTemp}
  }

  class Service {
    const text: Unicode
    const list: StopList
    const store: FileStore

    ghost function Now(): State
      reads list, store
    {
      State(store.file, list.current)
    }

    ghost predicate Valid()
      reads list, store
    {
      && list.text == store.text == text
      && InStep(text, Now())
    }

    constructor (list: StopList, store: FileStore)
      requires list.text == store.text && InStep(list.text, State(store.file, list.current))
      ensures Valid() && this.list == list && this.store == store
    {
      this.list, this.store, text := list, store, list.text;
    }

    predicate Contains(raw: string)
      reads list
    {
      Suppresses(text, list.current, raw)
    }

    method Add(raw: string, fails: set<SaveStep>) returns (reply: Reply)
      requires Valid()
      modifies list, store
      ensures Valid()
      ensures Now() == StepState(text, old(Now()), AddTerm(raw, GoesThrough(fails)))
      ensures reply == ReplyTo(text, old(Now()).snapshot.exact, AddTerm(raw, GoesThrough(fails)))
      ensures forall t :: t in list.current.exact <==>
                t in old(list.current.exact) || (GoesThrough(fails) && Normalized(text, raw) == Some(t))
    {
      hide Normalized, Listing, IndexOf, TermSet;
      ghost var terms := list.current.exact;
      StepInStep(text, Now(), AddTerm(raw, GoesThrough(fails)));
      ghost var call := AddTerm(raw, GoesThrough(fails));
      forall t ensures t in SetAfter(text, terms, call) <==>
                         t in terms || (GoesThrough(fails) && Normalized(text, raw) == Some(t)) {
        SetAfterMembers(text, terms, call, t);
      }
      var term, ok := Query(text, raw);
      if !ok {
        return Reply("", false, Some(EmptyTerm));
      }
      var current := list.Terms();
      ListingMembers(terms);
      var found := ContainsSorted(current, term);
      if found {
        assert terms + {term} == terms;
        return Reply(term, false, None);
      }
      var next := current + [term];
      NormalizedIsFixed(text, raw);
      TermSetOfSettled(text, next, terms + {term});
      var error := store.Save(next, fails);
      if error.Some? {
        return Reply("", false, error);
      }
      ListingMembers(terms + {term});
      TermSetOfSettled(text, Listing(terms + {term}), terms + {term});
      list.Replace(next);
      return Reply(term, true, None);
    }

    method Remove(raw: string, fails: set<SaveStep>) returns (reply: Reply)
      requires Valid()
      modifies list, store
      ensures Valid()
      ensures Now() == StepState(text, old(Now()), RemoveTerm(raw, GoesThrough(fails)))
      ensures reply == ReplyTo(text, old(Now()).snapshot.exact, RemoveTerm(raw, GoesThrough(fails)))
      ensures forall t :: t in list.current.exact <==>
                t in old(list.current.exact) && !(GoesThrough(fails) && Normalized(text, raw) == Some(t))
    {
      hide Normalized, Listing, IndexOf, TermSet;
      ghost var terms := list.current.exact;
      StepInStep(text, Now(), RemoveTerm(raw, GoesThrough(fails)));
      ghost var call := RemoveTerm(raw, GoesThrough(fails));
      forall t ensures t in SetAfter(text, terms, call) <==>
                         t in terms && !(GoesThrough(fails) && Normalized(text, raw) == Some(t)) {
        SetAfterMembers(text, terms, call, t);
      }
      var term, ok := Query(text, raw);
      if !ok {
        return Reply("", false, Some(EmptyTerm));
      }
      var current := list.Terms();
      ListingMembers(terms);
      var found := ContainsSorted(current, term);
      if !found {
        assert terms - {term} == terms;
        return Reply(term, false, None);
      }
      var next := Without(current, term);
      TermSetOfSettled(text, next, terms - {term});
      var error := store.Save(next, fails);
      if error.Some? {
        return Reply("", false, error);
      }
      ListingMembers(terms - {term});
      TermSetOfSettled(text, Listing(terms - {term}), terms - {term});
      list.Replace(next);
      return Reply(term, true, None);
    }
  }

  /** Loads the stored terms; a file that cannot be read or parsed stops the service from starting. */
  method NewService(store: FileStore) returns (service: Service?, error: Option<StopError>)
    ensures error == if store.file.Missing? || store.file.Stored? then None else Some(LoadFailed)
    ensures service != null <==> error == None
    ensures service != null ==> fresh(service) && fresh(service.list) && service.store == store && service.Valid()
    ensures service != null ==> service.list.current == IndexOf(store.text, FileTerms(store.text, store.file))
  {
    hide Normalized, Listing;
    var terms, problem := store.Load();
    if problem.Some? {
      return null, problem;
    }
    ghost var stored := FileTerms(store.text, store.file);
    StoredSettled(store.text, store.file);
    ListingMembers(stored);
    TermSetOfSettled(store.text, terms, stored);
    var list := new StopList(store.text, terms);
    service := new Service(list, store);
    return service, None;
  }

  lemma StoredSettled(u: Unicode, f: File)
    ensures Settled(u, FileTerms(u, f))
  {
    if f.Stored? { TermSetSettled(u, f.terms); }
  }
}
