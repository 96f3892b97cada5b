/** The directory that is asked once for the name of each authenticator model and
    once for each mark. Both kinds of question share one table of open questions. */
module PasskeyDirectory {
  import opened Wrappers
  import opened Keys

  datatype Holder = Holder(name: string, iconUrl: Option<string>)

  function HolderKey(aaguid: string, dark: bool): string {
    Lower(aaguid) + "|" + BoolText(dark)
  }

  function MarkKey(url: string, size: nat): string {
    url + "@" + Decimal(size)
  }

  datatype Directory<Image> = Directory(
    entries: map<string, Option<Holder>>, marks: map<string, Option<Image>>, asking: set<string>)

  /** The page claims the holder question under its key. */
  datatype Action<Image> =
    | Claim(aaguid: string, dark: bool)
    | Settle(aaguid: string, dark: bool, holder: Option<Holder>)
    | ClaimMark(url: string, size: nat)
    | SettleMark(url: string, size: nat, image: Option<Image>)

  function Next<Image>(d: Directory<Image>, a: Action<Image>): (Directory<Image>, bool) {
    match a
    case Claim(aaguid, dark) => Claimed(d, HolderKey(aaguid, dark), d.entries.Keys)
    case ClaimMark(url, size) => Claimed(d, MarkKey(url, size), d.marks.Keys)
    case Settle(aaguid, dark, holder) =>
      var id := HolderKey(aaguid, dark);
      (d.(entries := d.entries[id := holder], asking := d.asking - {id}), false)
    case SettleMark(url, size, image) =>
      var id := MarkKey(url, size);
      (d.(marks := d.marks[id := image], asking := d.asking - {id}), false)
  }

  function Claimed<Image>(d: Directory<Image>, id: string, settled: set<string>): (Directory<Image>, bool) {
    if id in settled || id in d.asking then (d, false) else (d.(asking := d.asking + {id}), true)
  }

  function Found<T>(settled: map<string, Option<T>>, id: string): Option<T> {
    if id in settled then settled[id] else None
  }

  class PasskeyDirectory<Image> {
    var entries: map<string, Option<Holder>>
    var marks: map<string, Option<Image>>
    var asking: set<string>

    function Now(): Directory<Image>
      reads this
    {
      Directory(entries, marks, asking)
    }

    constructor ()
      ensures Now() == Directory(map[], map[], {})
    {
      entries, marks, asking := map[], map[], {};
    }

    /** `holder`: the settled answer, while there is one. */
    function Find(aaguid: string, dark: bool): Option<Holder>
      reads this
    {
      Found(entries, HolderKey(aaguid, dark))
    }

    function FindMark(url: string, size: nat): Option<Image>
      reads this
    {
      Found(marks, MarkKey(url, size))
    }

    method Claim(id: string) returns (ok: bool)
      modifies this
      ensures (Now(), ok) == Claimed(old(Now()), id, old(entries).Keys)
    {
      if id in entries || id in asking {
        return false;
      }
      asking := asking + {id};
      return true;
    }

    method Settle(aaguid: string, dark: bool, holder: Option<Holder>)
      modifies this
      ensures Now() == Next(old(Now()), Action.Settle(aaguid, dark, holder)).0
    {
      var id := HolderKey(aaguid, dark);
      asking := asking - {id};
      entries := entries[id := holder];
    }

    method ClaimMark(url: string, size: nat) returns (ok: bool)
      modifies this
      ensures (Now(), ok) == Next(old(Now()), Action.ClaimMark(url, size))
    {
      var id := MarkKey(url, size);
      if id in marks || id in asking {
        return false;
      }
      asking := asking + {id};
      return true;
    }

    method SettleMark(url: string, size: nat, image: Option<Image>)
      modifies this
      ensures Now() == Next(old(Now()), Action.SettleMark(url, size, image)).0
    {
      var id := MarkKey(url, size);
      asking := asking - {id};
      marks := marks[id := image];
    }

    /** The page claims the holder question under its key; an answer is told nothing. */
    method Do(a: Action<Image>) returns (ok: bool)
      modifies this
      ensures (Now(), ok) == Next(old(Now()), a)
    {
      hide HolderKey, MarkKey;
      ok := false;
      match a {
        case Claim(aaguid, dark) => ok := Claim(HolderKey(aaguid, dark));
        case Settle(aaguid, dark, holder) => Settle(aaguid, dark, holder);
        case ClaimMark(url, size) => ok := ClaimMark(url, size);
        case SettleMark(url, size, image) => SettleMark(url, size, image);
      }
    }

    /** A run of claims and answers on a new directory, and what each claim is told: it succeeds exactly
        when nothing before it was about the same question, and what is found is the last answer given. */
    method Perform(actions: seq<Action<Image>>) returns (told: seq<bool>)
      requires Now() == Directory(map[], map[], {})
      modifies this
      ensures Now() == Run(actions) && |told| == |actions|
      ensures forall i | 0 <= i < |actions| && (actions[i].Claim? || actions[i].ClaimMark?) ::
                told[i] <==> !Before(actions[..i], About(actions[i]))
      ensures forall aaguid, dark :: Find(aaguid, dark) == LastHolder(actions, Model(aaguid, dark))
      ensures forall url, size :: FindMark(url, size) == LastMark(actions, Mark(url, size))
    {
      hide Next, Before;
      told := [];
      for i := 0 to |actions|
        invariant Now() == Run(actions[..i]) && |told| == i
        invariant forall k | 0 <= k < i && (actions[k].Claim? || actions[k].ClaimMark?) ::
                    told[k] <==> !Before(actions[..k], About(actions[k]))
      {
        assert actions[..i + 1][..i] == actions[..i];
        if actions[i].Claim? || actions[i].ClaimMark? { ClaimedOnce(actions[..i], actions[i]); }
        var ok := Do(actions[i]);
        told := told + [ok];
      }
      assert actions[..|actions|] == actions;
      forall aaguid, dark ensures Find(aaguid, dark) == LastHolder(actions, Model(aaguid, dark)) {
        LastAnswerIsFound(actions, aaguid, dark, "", 0);
      }
      forall url, size: nat ensures FindMark(url, size) == LastMark(actions, Mark(url, size)) {
        LastAnswerIsFound(actions, "", false, url, size);
      }
    }
  }

  // ----- The keys -----

  /** Two models asked about are the same question exactly when they are one up to ASCII case, in one theme. */
  lemma HolderKeyMeans(aaguid: string, dark: bool, aaguid': string, dark': bool)
    ensures HolderKey(aaguid, dark) == HolderKey(aaguid', dark') <==> SameUpToCase(aaguid, aaguid') && dark == dark'
  {
    LowerMeans(aaguid, aaguid');
    if HolderKey(aaguid, dark) == HolderKey(aaguid', dark') {
      SplitAtLast(Lower(aaguid), BoolText(dark), Lower(aaguid'), BoolText(dark'), '|');
    }
  }

  lemma MarkKeyMeans(url: string, size: nat, url': string, size': nat)
    ensures MarkKey(url, size) == MarkKey(url', size') <==> url == url' && size == size'
  {
    if MarkKey(url, size) == MarkKey(url', size') {
      DecimalDigits(size);
      DecimalDigits(size');
      SplitAtLast(url, Decimal(size), url', Decimal(size'), '@');
      DecimalInjective(size, size');
    }
  }

  /** One kind ends in a letter, the other in a digit. */
  lemma KindsNeverCollide(aaguid: string, dark: bool, url: string, size: nat)
    ensures HolderKey(aaguid, dark) != MarkKey(url, size)
  {
    var h, m := HolderKey(aaguid, dark), MarkKey(url, size);
    DecimalDigits(size);
    assert h[|h| - 1] == 'e';
    assert m[|m| - 1] == Decimal(size)[|Decimal(size)| - 1];
  }

  // ----- Once each -----

  datatype Question = Model(aaguid: string, dark: bool) | Mark(url: string, size: nat)

  /** One model up to ASCII case, in one theme; or one mark. */
  predicate Same(q: Question, r: Question) {
    match (q, r)
    case (Model(a, dark), Model(b, dark')) => SameUpToCase(a, b) && dark == dark'
    case (Mark(_, _), Mark(_, _)) => q == r
    case _ => false
  }

  function About<Image>(a: Action<Image>): Question {
    match a
    case Claim(aaguid, dark) => Model(aaguid, dark)
    case Settle(aaguid, dark, _) => Model(aaguid, dark)
    case ClaimMark(url, size) => Mark(url, size)
    case SettleMark(url, size, _) => Mark(url, size)
  }

  /** The question an action is about is open or answered. */
  predicate Taken<Image>(d: Directory<Image>, a: Action<Image>) {
    match a
    case Claim(aaguid, dark) => HolderKey(aaguid, dark) in d.entries || HolderKey(aaguid, dark) in d.asking
    case Settle(aaguid, dark, _) => HolderKey(aaguid, dark) in d.entries || HolderKey(aaguid, dark) in d.asking
    case ClaimMark(url, size) => MarkKey(url, size) in d.marks || MarkKey(url, size) in d.asking
    case SettleMark(url, size, _) => MarkKey(url, size) in d.marks || MarkKey(url, size) in d.asking
  }

  function Run<Image>(actions: seq<Action<Image>>): Directory<Image> {
    if actions == [] then Directory(map[], map[], {})
    else Next(Run(actions[..|actions| - 1]), actions[|actions| - 1]).0
  }

  lemma TakenAfter<Image>(d: Directory<Image>, a: Action<Image>, other: Action<Image>)
    ensures Taken(Next(d, a).0, other) <==> Taken(d, other) || Same(About(a), About(other))
  {
    KeysOfActions(a, other);
  }

  function KeyOf<Image>(a: Action<Image>): string {
    match a
    case Claim(aaguid, dark) => HolderKey(aaguid, dark)
    case Settle(aaguid, dark, _) => HolderKey(aaguid, dark)
    case ClaimMark(url, size) => MarkKey(url, size)
    case SettleMark(url, size, _) => MarkKey(url, size)
  }

  lemma KeysOfActions<Image>(a: Action<Image>, b: Action<Image>)
    ensures KeyOf(a) == KeyOf(b) <==> Same(About(a), About(b))
  {
    if About(a).Model? {
      if About(b).Model? { HolderKeyMeans(a.aaguid, a.dark, b.aaguid, b.dark); }
      else { KindsNeverCollide(a.aaguid, a.dark, b.url, b.size); }
    } else {
      if About(b).Model? { KindsNeverCollide(b.aaguid, b.dark, a.url, a.size); }
      else { MarkKeyMeans(a.url, a.size, b.url, b.size); }
    }
  }

  ghost predicate Before<Image>(actions: seq<Action<Image>>, q: Question) {
    exists k :: 0 <= k < |actions| && Same(About(actions[k]), q)
  }

  lemma {:induction false} TakenMeansBefore<Image>(actions: seq<Action<Image>>, a: Action<Image>)
    ensures Taken(Run(actions), a) <==> Before(actions, About(a))
  {
    if actions != [] {
      var n := |actions| - 1;
      TakenMeansBefore(actions[..n], a);
      TakenAfter(Run(actions[..n]), actions[n], a);
      assert actions == actions[..n] + [actions[n]];
    }
  }

  /** In every run, a claim succeeds exactly when nothing before it, claim or answer, was about the same
      question: so each question is asked at most once. */
  lemma ClaimedOnce<Image>(actions: seq<Action<Image>>, a: Action<Image>)
    requires a.Claim? || a.ClaimMark?
    ensures Next(Run(actions), a).1 <==> !Before(actions, About(a))
  {
    TakenMeansBefore(actions, a);
  }

  ghost predicate Answered<Image>(actions: seq<Action<Image>>, q: Question) {
    exists k :: 0 <= k < |actions| && (actions[k].Settle? || actions[k].SettleMark?) && Same(About(actions[k]), q)
  }

  lemma OpenAfter<Image>(d: Directory<Image>, a: Action<Image>, other: Action<Image>)
    ensures KeyOf(other) in Next(d, a).0.asking <==>
            if !Same(About(a), About(other)) then KeyOf(other) in d.asking
            else (a.Claim? || a.ClaimMark?) && (KeyOf(other) in d.asking || !Taken(d, other))
  {
    KeysOfActions(a, other);
  }

  /** In every run a question is open exactly when it has been claimed and not answered since. */
  lemma {:induction false} OpenUntilAnswered<Image>(actions: seq<Action<Image>>, a: Action<Image>)
    ensures KeyOf(a) in Run(actions).asking <==> Before(actions, About(a)) && !Answered(actions, About(a))
  {
    if actions != [] {
      var most, last := actions[..|actions| - 1], actions[|actions| - 1];
      OpenUntilAnswered(most, a);
      OpenAfter(Run(most), last, a);
      TakenMeansBefore(most, a);
      assert actions == most + [last];
      assert Answered(actions, About(a)) <==>
             Answered(most, About(a)) || ((last.Settle? || last.SettleMark?) && Same(About(last), About(a)));
    }
  }

  /** An answer settles its own question and leaves every other answer as it was. */
  lemma SettlesOneQuestion<Image>(d: Directory<Image>, a: Action<Image>, b: Action<Image>)
    requires (a.Settle? || a.SettleMark?) && !Same(About(a), About(b))
    ensures var n := Next(d, a).0;
            (KeyOf(b) in n.entries <==> KeyOf(b) in d.entries) && (KeyOf(b) in n.marks <==> KeyOf(b) in d.marks)
            && (KeyOf(b) in d.entries ==> n.entries[KeyOf(b)] == d.entries[KeyOf(b)])
            && (KeyOf(b) in d.marks ==> n.marks[KeyOf(b)] == d.marks[KeyOf(b)])
            && (KeyOf(b) in n.asking <==> KeyOf(b) in d.asking)
  {
    KeysOfActions(a, b);
  }

  // ----- What is found -----

  /** The last answer given about a model, and about a mark. */
  function LastHolder<Image>(actions: seq<Action<Image>>, q: Question): Option<Holder> {
    if actions == [] then None
    else
      var last := actions[|actions| - 1];
      if last.Settle? && Same(About(last), q) then last.holder else LastHolder(actions[..|actions| - 1], q)
  }

  function LastMark<Image>(actions: seq<Action<Image>>, q: Question): Option<Image> {
    if actions == [] then None
    else
      var last := actions[|actions| - 1];
      if last.SettleMark? && Same(About(last), q) then last.image else LastMark(actions[..|actions| - 1], q)
  }

  /** In every run, what is found for a question is the last answer given to that very question. */
  lemma {:induction false} LastAnswerIsFound<Image>(actions: seq<Action<Image>>, aaguid: string, dark: bool,
                                                    url: string, size: nat)
    ensures Found(Run(actions).entries, HolderKey(aaguid, dark)) == LastHolder(actions, Model(aaguid, dark))
    ensures Found(Run(actions).marks, MarkKey(url, size)) == LastMark(actions, Mark(url, size))
  {
    if actions != [] {
      LastAnswerIsFound(actions[..|actions| - 1], aaguid, dark, url, size);
      KeysOfActions(actions[|actions| - 1], Action.Claim(aaguid, dark));
      KeysOfActions(actions[|actions| - 1], Action.ClaimMark(url, size));
    }
  }
}
