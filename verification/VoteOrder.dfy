/** When votes that arrive in a given order are all counted for their own texts. */
module VoteOrder {
  import opened MachineTypes
  import opened MajorityVote

  /** All answers but the last. */
  function Earlier(answers: seq<Option<Vote>>): seq<Option<Vote>>
    requires answers != []
  {
    answers[..|answers| - 1]
  }

  function Last(answers: seq<Option<Vote>>): Option<Vote>
    requires answers != []
  {
    answers[|answers| - 1]
  }

  // ---------- the condition, in terms of the answers alone ----------

  /** The texts that were named, in the order in which they were named first. */
  function Named(answers: seq<Option<Vote>>): seq<Text>
  {
    if answers == [] then []
    else
      var texts, last := Named(Earlier(answers)), Last(answers);
      if last.Some? && last.value.text !in texts then texts + [last.value.text] else texts
  }

  /** Some service whose name begins with this one named the text. */
  ghost predicate Recognised(answers: seq<Option<Vote>>, t: Text, proposer: Text)
  {
    exists q :: proposer <= q && Some(Vote(t, q)) in answers
  }

  /** The vote finds each text before place `n` that begins with its own already supported in its name. */
  ghost predicate PassesBy(answers: seq<Option<Vote>>, v: Vote, n: nat)
    requires n <= |Named(answers)|
  {
    forall j :: 0 <= j < n && v.text <= Named(answers)[j] ==> Recognised(answers, Named(answers)[j], v.proposer)
  }

  /** After these answers, the next vote is counted for its own text: no text that was named begins with its own; or
      it was cast before, and every text that begins with its own passes it by; or its text was named, is not yet
      supported in its name, and the texts named before it pass it by. */
  ghost predicate CountsForItself(answers: seq<Option<Vote>>, v: Vote)
  {
    var texts := Named(answers);
    || (forall j :: 0 <= j < |texts| ==> !(v.text <= texts[j]))
    || (Some(v) in answers && PassesBy(answers, v, |texts|))
    || exists k :: 0 <= k < |texts| && texts[k] == v.text && !Recognised(answers, v.text, v.proposer)
                   && PassesBy(answers, v, k)
  }

  ghost predicate AllCount(answers: seq<Option<Vote>>)
  {
    answers == []
    || (&& AllCount(Earlier(answers))
        && (Last(answers).Some? ==> CountsForItself(Earlier(answers), Last(answers).value)))
  }

  /** After every single answer each proposer is counted for exactly the texts it named. */
  ghost predicate AlwaysFaithful(answers: seq<Option<Vote>>)
  {
    Faithful(answers) && (answers == [] || AlwaysFaithful(Earlier(answers)))
  }

  // ---------- one walk ----------

  /** Where the walk ends: at the first proposal that matches and does not know the proposer. */
  function Target(list: seq<Proposal>, v: Vote): (r: nat)
    ensures r <= |list|
    ensures forall i :: 0 <= i < r && Matches(list[i].text, v.text) ==> Known(list[i].proposers, v.proposer)
    ensures r < |list| ==> Matches(list[r].text, v.text) && !Known(list[r].proposers, v.proposer)
  {
    if list == [] || (Matches(list[0].text, v.text) && !Known(list[0].proposers, v.proposer)) then 0
    else 1 + Target(list[1..], v)
  }

  predicate SomeMatch(list: seq<Proposal>, v: Vote)
  {
    exists i :: 0 <= i < |list| && Matches(list[i].text, v.text)
  }

  lemma SomeMatchCons(list: seq<Proposal>, v: Vote)
    requires list != []
    ensures SomeMatch(list, v) <==> Matches(list[0].text, v.text) || SomeMatch(list[1..], v)
  {
    var rest := list[1..];
    if SomeMatch(rest, v) {
      var i :| 0 <= i < |rest| && Matches(rest[i].text, v.text);
      assert Matches(list[i + 1].text, v.text);
    }
    if SomeMatch(list, v) && !Matches(list[0].text, v.text) {
      var i :| 0 <= i < |list| && Matches(list[i].text, v.text);
      assert Matches(rest[i - 1].text, v.text);
    }
  }

  lemma ConsUpdate<T>(s: seq<T>, k: nat, x: T)
    requires k < |s|
    ensures s == [s[0]] + s[1..]
    ensures k == 0 ==> s[k := x] == [x] + s[1..]
    ensures k > 0 ==> s[k := x] == [s[0]] + s[1..][k - 1 := x]
  {
  }

  lemma {:induction false} WalkIs(list: seq<Proposal>, v: Vote, added: bool)
    ensures var r := Target(list, v);
            Walk(list, v, added) == if r < |list| then list[r := Supported(list[r], v)]
                                    else if added || SomeMatch(list, v) then list else list + [Create(v)]
    decreases |list|
  {
    if list != [] {
      var r, rest := Target(list, v), list[1..];
      WalkIs(rest, v, added || Matches(list[0].text, v.text));
      SomeMatchCons(list, v);
      if r < |list| {
        ConsUpdate(list, r, Supported(list[r], v));
      } else {
        ConsUpdate(list, 0, list[0]);
        assert list + [Create(v)] == [list[0]] + (rest + [Create(v)]);
      }
      hide Matches, Known, SomeMatch, Supported, Create;
    }
  }

  lemma {:induction false} CollectLast(list: seq<Proposal>, answers: seq<Option<Vote>>)
    requires answers != []
    ensures var before := Collect(list, Earlier(answers));
            Collect(list, answers) == if Last(answers).Some? then Walk(before, Last(answers).value, false) else before
    decreases |answers|
  {
    if |answers| > 1 {
      var next := if answers[0].Some? then Walk(list, answers[0].value, false) else list;
      CollectLast(next, answers[1..]);
      assert Earlier(answers)[1..] == Earlier(answers[1..]);
    }
  }

  lemma {:induction false} BacksIff(list: seq<Proposal>, t: Text, q: Text)
    ensures Backs(list, t, q) <==> exists i :: 0 <= i < |list| && list[i].text == t && q in list[i].proposers
  {
    if list != [] {
      BacksIff(list[1..], t, q);
      assert forall i :: 0 < i < |list| ==> list[i] == list[1..][i - 1];
      if i :| 0 <= i < |list[1..]| && list[1..][i].text == t && q in list[1..][i].proposers {
        assert list[i + 1].text == t;
      }
    }
  }

  // ---------- the list mirrors the answers ----------

  ghost predicate Mirrors(list: seq<Proposal>, answers: seq<Option<Vote>>)
  {
    && |list| == |Named(answers)|
    && (forall i :: 0 <= i < |list| ==> list[i].text == Named(answers)[i])
    && (forall i, q :: 0 <= i < |list| ==> (q in list[i].proposers <==> Some(Vote(list[i].text, q)) in answers))
  }

  lemma {:induction false} NamedIff(answers: seq<Option<Vote>>, t: Text)
    ensures t in Named(answers) <==> exists q :: Some(Vote(t, q)) in answers
  {
    if answers != [] {
      NamedIff(Earlier(answers), t);
      assert forall a :: a in answers <==> a in Earlier(answers) || a == Last(answers);
    }
  }

  lemma {:induction false} NamedOnce(answers: seq<Option<Vote>>)
    ensures forall i, j :: 0 <= i < j < |Named(answers)| ==> Named(answers)[i] != Named(answers)[j]
  {
    if answers != [] {
      NamedOnce(Earlier(answers));
    }
  }

  lemma MirrorsIsFaithful(list: seq<Proposal>, answers: seq<Option<Vote>>)
    requires Mirrors(list, answers)
    ensures forall t, q :: Backs(list, t, q) <==> Some(Vote(t, q)) in answers
  {
    forall t, q ensures Backs(list, t, q) <==> Some(Vote(t, q)) in answers {
      BacksIff(list, t, q);
      if Some(Vote(t, q)) in answers {
        NamedIff(answers, t);
        var i :| 0 <= i < |list| && Named(answers)[i] == t;
        assert list[i].text == t;
      }
    }
  }

  lemma KnownIsRecognised(list: seq<Proposal>, answers: seq<Option<Vote>>, i: nat, proposer: Text)
    requires Mirrors(list, answers) && i < |list|
    ensures Known(list[i].proposers, proposer) <==> Recognised(answers, list[i].text, proposer)
  {
    var ps := list[i].proposers;
    if Known(ps, proposer) {
      var k :| 0 <= k < |ps| && Matches(ps[k], proposer);
      assert ps[k] in ps && Some(Vote(list[i].text, ps[k])) in answers;
    }
    if Recognised(answers, list[i].text, proposer) {
      var q :| proposer <= q && Some(Vote(list[i].text, q)) in answers;
      assert q in ps;
      var k :| 0 <= k < |ps| && ps[k] == q;
      assert Matches(ps[k], proposer);
    }
  }

  // ---------- one more answer ----------

  /** The condition, seen on the list. */
  lemma CountsIff(list: seq<Proposal>, answers: seq<Option<Vote>>, v: Vote)
    requires Mirrors(list, answers)
    ensures var r := Target(list, v);
            CountsForItself(answers, v)
            <==> if r < |list| then list[r].text == v.text else SomeMatch(list, v) ==> Some(v) in answers
  {
    var r, texts := Target(list, v), Named(answers);
    forall i | 0 <= i < |list|
      ensures Known(list[i].proposers, v.proposer) <==> Recognised(answers, texts[i], v.proposer)
    {
      KnownIsRecognised(list, answers, i, v.proposer);
    }
    hide Known, Recognised, Named;
    if r < |list| {
      assert v.text <= texts[r] && !Recognised(answers, texts[r], v.proposer);
      assert PassesBy(answers, v, r);
    } else {
      assert PassesBy(answers, v, |texts|);
      if !SomeMatch(list, v) {
        forall j | 0 <= j < |texts| ensures !(v.text <= texts[j]) {
          assert !Matches(list[j].text, v.text);
        }
      }
    }
  }

  /** The text was named: its proposal gets the supporter. */
  lemma SupportMirrors(list: seq<Proposal>, answers: seq<Option<Vote>>, v: Vote, r: nat)
    requires answers != [] && Last(answers) == Some(v) && Mirrors(list, Earlier(answers))
    requires r < |list| && list[r].text == v.text
    ensures Mirrors(list[r := Supported(list[r], v)], answers)
  {
    var before, after := Earlier(answers), list[r := Supported(list[r], v)];
    NamedOnce(before);
    assert forall a :: a in answers <==> a in before || a == Some(v);
    assert Named(before)[r] in Named(before);
    assert Named(answers) == Named(before);
    hide Named;
    forall i, q | 0 <= i < |after|
      ensures q in after[i].proposers <==> Some(Vote(after[i].text, q)) in answers
    {
      assert q in list[i].proposers <==> Some(Vote(list[i].text, q)) in before;
      assert i != r ==> Named(before)[i] != Named(before)[r];
    }
  }

  /** The text is new: it gets a proposal. */
  lemma CreateMirrors(list: seq<Proposal>, answers: seq<Option<Vote>>, v: Vote)
    requires answers != [] && Last(answers) == Some(v) && Mirrors(list, Earlier(answers))
    requires v.text !in Named(Earlier(answers))
    ensures Mirrors(list + [Create(v)], answers)
  {
    var before, after := Earlier(answers), list + [Create(v)];
    assert forall a :: a in answers <==> a in before || a == Some(v);
    assert Named(answers) == Named(before) + [v.text];
    NamedIff(before, v.text);
    hide Named;
    forall i, q | 0 <= i < |after|
      ensures q in after[i].proposers <==> Some(Vote(after[i].text, q)) in answers
    {
      if i < |list| {
        assert q in list[i].proposers <==> Some(Vote(list[i].text, q)) in before;
        assert Named(before)[i] in Named(before);
      }
    }
  }

  /** The vote was cast before: nothing changes. */
  lemma RepeatMirrors(list: seq<Proposal>, answers: seq<Option<Vote>>)
    requires answers != [] && Mirrors(list, Earlier(answers))
    requires Last(answers).Some? ==> Last(answers) in Earlier(answers)
    ensures Mirrors(list, answers)
  {
    var before := Earlier(answers);
    assert forall v: Vote :: Some(v) in answers <==> Some(v) in before;
    if Last(answers).Some? {
      NamedIff(before, Last(answers).value.text);
      assert Some(Vote(Last(answers).value.text, Last(answers).value.proposer)) in before;
    }
    assert Named(answers) == Named(before);
  }

  /** A vote that is counted for its own text keeps the list a mirror of the answers. */
  lemma NextMirrors(list: seq<Proposal>, answers: seq<Option<Vote>>)
    requires answers != [] && Last(answers).Some? && Mirrors(list, Earlier(answers))
    requires CountsForItself(Earlier(answers), Last(answers).value)
    ensures Mirrors(Walk(list, Last(answers).value, false), answers)
  {
    var before, v := Earlier(answers), Last(answers).value;
    var r := Target(list, v);
    WalkIs(list, v, false);
    CountsIff(list, before, v);
    if r < |list| {
      SupportMirrors(list, answers, v, r);
    } else if SomeMatch(list, v) {
      RepeatMirrors(list, answers);
    } else {
      forall j | 0 <= j < |list| ensures Named(before)[j] != v.text {
        assert !Matches(list[j].text, v.text);
      }
      CreateMirrors(list, answers, v);
    }
  }

  lemma ListedIsKnown(proposers: seq<Text>, q: Text)
    ensures q in proposers ==> Known(proposers, q)
  {
    if q in proposers {
      var k :| 0 <= k < |proposers| && proposers[k] == q;
      assert Matches(proposers[k], q);
    }
  }

  /** Another vote adds a supporter where it should not, or is lost. */
  lemma NextIsUnfaithful(list: seq<Proposal>, answers: seq<Option<Vote>>)
    requires answers != [] && Last(answers).Some? && Mirrors(list, Earlier(answers))
    requires !CountsForItself(Earlier(answers), Last(answers).value)
    ensures var after := Walk(list, Last(answers).value, false);
            exists t, q :: !(Backs(after, t, q) <==> Some(Vote(t, q)) in answers)
  {
    var before, v := Earlier(answers), Last(answers).value;
    var r, after := Target(list, v), Walk(list, v, false);
    WalkIs(list, v, false);
    CountsIff(list, before, v);
    assert forall a :: a in answers <==> a in before || a == Some(v);
    if r < |list| {
      var u := list[r].text;
      assert after[r].text == u && v.proposer in after[r].proposers;
      BacksIff(after, u, v.proposer);
      ListedIsKnown(list[r].proposers, v.proposer);
      assert !(Backs(after, u, v.proposer) <==> Some(Vote(u, v.proposer)) in answers);
    } else {
      MirrorsIsFaithful(list, before);
      assert !(Backs(after, v.text, v.proposer) <==> Some(Vote(v.text, v.proposer)) in answers);
    }
  }

  // ---------- the exact condition for a given order ----------

  lemma {:induction false} AllCountMirrors(answers: seq<Option<Vote>>)
    requires AllCount(answers)
    ensures Mirrors(Collect([], answers), answers) && AlwaysFaithful(answers)
  {
    if answers != [] {
      var before := Earlier(answers);
      AllCountMirrors(before);
      CollectLast([], answers);
      if Last(answers).Some? {
        NextMirrors(Collect([], before), answers);
      } else {
        RepeatMirrors(Collect([], before), answers);
      }
    }
    MirrorsIsFaithful(Collect([], answers), answers);
  }

  lemma FaithfulCounts(answers: seq<Option<Vote>>)
    requires answers != [] && Last(answers).Some? && Faithful(answers)
    requires Mirrors(Collect([], Earlier(answers)), Earlier(answers))
    ensures CountsForItself(Earlier(answers), Last(answers).value)
  {
    CollectLast([], answers);
    if !CountsForItself(Earlier(answers), Last(answers).value) {
      NextIsUnfaithful(Collect([], Earlier(answers)), answers);
    }
  }

  /** For votes in a given order: after every single answer each proposer is counted for exactly the texts it named,
      exactly if each vote meets the condition. */
  lemma {:induction false} AlwaysFaithfulIff(answers: seq<Option<Vote>>)
    ensures AlwaysFaithful(answers) <==> AllCount(answers)
  {
    if AllCount(answers) {
      AllCountMirrors(answers);
    }
    if AlwaysFaithful(answers) && answers != [] {
      var before := Earlier(answers);
      AlwaysFaithfulIff(before);
      AllCountMirrors(before);
      if Last(answers).Some? {
        FaithfulCounts(answers);
      }
    }
  }

  // ---------- one vote each ----------

  /** No two answers come from the same proposer. */
  predicate OneVoteEach(answers: seq<Option<Vote>>)
  {
    forall i, j :: 0 <= i < j < |answers| && answers[i].Some? && answers[j].Some? ==>
      answers[i].value.proposer != answers[j].value.proposer
  }

  ghost predicate Voted(answers: seq<Option<Vote>>, q: Text)
  {
    exists t :: Some(Vote(t, q)) in answers
  }

  lemma WalkKeepsOthers(list: seq<Proposal>, v: Vote, t: Text, q: Text)
    requires q != v.proposer
    ensures Backs(Walk(list, v, false), t, q) <==> Backs(list, t, q)
  {
    var r, after := Target(list, v), Walk(list, v, false);
    WalkIs(list, v, false);
    BacksIff(list, t, q);
    BacksIff(after, t, q);
    hide Walk, Target, Backs, SomeMatch;
    if i :| 0 <= i < |list| && list[i].text == t && q in list[i].proposers {
      assert after[i].text == t && q in after[i].proposers;
    }
    if i :| 0 <= i < |after| && after[i].text == t && q in after[i].proposers {
      assert i < |list|;
      assert list[i].text == t && q in list[i].proposers;
    }
  }

  /** Only who voted is counted. */
  lemma {:induction false} BackersVoted(answers: seq<Option<Vote>>, t: Text, q: Text)
    requires Backs(Collect([], answers), t, q)
    ensures Voted(answers, q)
  {
    if answers != [] {
      CollectLast([], answers);
      var last := Last(answers);
      if last.Some? && last.value.proposer == q {
        assert Some(Vote(last.value.text, q)) in answers;
      } else {
        if last.Some? {
          WalkKeepsOthers(Collect([], Earlier(answers)), last.value, t, q);
        }
        BackersVoted(Earlier(answers), t, q);
        var u :| Some(Vote(u, q)) in Earlier(answers);
        assert Some(Vote(u, q)) in answers;
      }
    }
  }

  lemma VotedOnce(answers: seq<Option<Vote>>)
    requires answers != [] && OneVoteEach(answers) && Last(answers).Some?
    ensures !Voted(Earlier(answers), Last(answers).value.proposer)
  {
    var before, q := Earlier(answers), Last(answers).value.proposer;
    forall i | 0 <= i < |before| ensures before[i].Some? ==> before[i].value.proposer != q {
      assert answers[i] == before[i];
    }
  }

  lemma FaithfulBefore(answers: seq<Option<Vote>>)
    requires answers != [] && OneVoteEach(answers) && Faithful(answers)
    ensures Faithful(Earlier(answers))
  {
    var before, last := Earlier(answers), Last(answers);
    CollectLast([], answers);
    assert forall a :: a in answers <==> a in before || a == last;
    forall t, q ensures Backs(Collect([], before), t, q) <==> Some(Vote(t, q)) in before {
      if last.Some? && q == last.value.proposer {
        VotedOnce(answers);
        if Backs(Collect([], before), t, q) {
          BackersVoted(before, t, q);
        }
      } else if last.Some? {
        WalkKeepsOthers(Collect([], before), last.value, t, q);
      }
    }
  }

  lemma {:induction false} FaithfulIsAlways(answers: seq<Option<Vote>>)
    requires OneVoteEach(answers) && Faithful(answers)
    ensures AlwaysFaithful(answers)
  {
    if answers != [] {
      FaithfulBefore(answers);
      FaithfulIsAlways(Earlier(answers));
    }
  }

  /** When no two answers come from the same proposer, the condition is exact for the result of the vote: a vote that
      is not counted for its own text is never made good. */
  lemma FaithfulIff(answers: seq<Option<Vote>>)
    requires OneVoteEach(answers)
    ensures Faithful(answers) <==> AllCount(answers)
  {
    AlwaysFaithfulIff(answers);
    if Faithful(answers) {
      FaithfulIsAlways(answers);
    }
  }
}
