/** The vote of the info services on a new cascade: proposals are collected with their proposers, and one that more
    than two thirds of the services made wins. */
module MajorityVote {
  import opened MachineTypes

  /** A proposal and what its proposer calls itself; the source compares both with `memcmp` over the length of the
      newer one, so that a newer text matches every stored text it is a prefix of. */
  type Text = string

  datatype Proposal = Proposal(text: Text, proposers: seq<Text>, count: UInt32)

  datatype Vote = Vote(text: Text, proposer: Text)

  predicate Matches(stored: Text, given: Text)
  {
    given <= stored
  }

  predicate Known(proposers: seq<Text>, proposer: Text)
  {
    exists i :: 0 <= i < |proposers| && Matches(proposers[i], proposer)
  }

  function Create(v: Vote): Proposal
  {
    Proposal(v.text, [v.proposer], 1)
  }

  function Supported(p: Proposal, v: Vote): Proposal
  {
    p.(proposers := p.proposers + [v.proposer], count := Add32(p.count, 1))
  }

  /** The walk along the list; `added` tells that an earlier proposal already had this vote. */
  function Walk(list: seq<Proposal>, v: Vote, added: bool): seq<Proposal>
  {
    if list == [] then if added then [] else [Create(v)]
    else if Matches(list[0].text, v.text) && !Known(list[0].proposers, v.proposer) then
      [Supported(list[0], v)] + list[1..]
    else [list[0]] + Walk(list[1..], v, added || Matches(list[0].text, v.text))
  }

  function Quota(services: UInt32): UInt32
  {
    Add32((if 2 * services < TWO_32 then 2 * services else 2 * services - TWO_32) / 3, 1)
  }

  /** The last proposal that reaches the quota. */
  function LastWinner(list: seq<Proposal>, quota: UInt32): Option<Text>
  {
    if list == [] then None
    else
      var last := list[|list| - 1];
      if last.count >= quota then Some(last.text) else LastWinner(list[..|list| - 1], quota)
  }

  // ---------- what every vote keeps ----------

  function Sum(list: seq<Proposal>): nat
  {
    if list == [] then 0 else list[0].count + Sum(list[1..])
  }

  /** Each count is the number of the proposers, and no proposer is listed twice. */
  predicate Counted(p: Proposal)
  {
    && p.count == |p.proposers|
    && forall i, j :: 0 <= i < j < |p.proposers| ==> p.proposers[i] != p.proposers[j]
  }

  predicate AllCounted(list: seq<Proposal>)
  {
    forall i :: 0 <= i < |list| ==> Counted(list[i])
  }

  lemma SupportedIsCounted(p: Proposal, v: Vote)
    requires Counted(p) && p.count + 1 < TWO_32 && !Known(p.proposers, v.proposer)
    ensures Counted(Supported(p, v)) && Supported(p, v).count == p.count + 1
  {
    forall i | 0 <= i < |p.proposers| ensures p.proposers[i] != v.proposer {
      assert !Matches(p.proposers[i], v.proposer);
    }
  }

  lemma {:induction false} CountIsInSum(list: seq<Proposal>, i: nat)
    requires i < |list|
    ensures list[i].count <= Sum(list)
  {
    if i > 0 {
      CountIsInSum(list[1..], i - 1);
    }
  }

  /** One answer raises the sum of all counts by at most one. */
  lemma {:induction false} WalkKeeps(list: seq<Proposal>, v: Vote, added: bool)
    requires AllCounted(list) && Sum(list) + 1 < TWO_32
    ensures AllCounted(Walk(list, v, added))
    ensures Sum(list) <= Sum(Walk(list, v, added)) <= Sum(list) + 1
    decreases |list|
  {
    if list == [] {
      assert Counted(Create(v));
      assert Walk(list, v, added) == [] || Walk(list, v, added)[1..] == [];
    } else {
      var p, rest := list[0], list[1..];
      assert AllCounted(rest);
      CountIsInSum(list, 0);
      assert Counted(p);
      if Matches(p.text, v.text) && !Known(p.proposers, v.proposer) {
        SupportedIsCounted(p, v);
        assert ([Supported(p, v)] + rest)[1..] == rest;
      } else {
        var more := Walk(rest, v, added || Matches(p.text, v.text));
        WalkKeeps(rest, v, added || Matches(p.text, v.text));
        assert ([p] + more)[1..] == more;
      }
    }
  }

  function Collect(list: seq<Proposal>, answers: seq<Option<Vote>>): seq<Proposal>
    decreases |answers|
  {
    if answers == [] then list
    else Collect(if answers[0].Some? then Walk(list, answers[0].value, false) else list, answers[1..])
  }

  lemma {:induction false} CollectKeeps(list: seq<Proposal>, answers: seq<Option<Vote>>)
    requires AllCounted(list) && Sum(list) + |answers| < TWO_32
    ensures AllCounted(Collect(list, answers)) && Sum(Collect(list, answers)) <= Sum(list) + |answers|
    decreases |answers|
  {
    hide AllCounted, Sum, Walk;
    if answers != [] {
      var next := if answers[0].Some? then Walk(list, answers[0].value, false) else list;
      if answers[0].Some? {
        WalkKeeps(list, answers[0].value, false);
      }
      CollectKeeps(next, answers[1..]);
    }
  }

  // ---------- the winner ----------

  lemma {:induction false} TwoCountsInSum(list: seq<Proposal>, i: nat, j: nat)
    requires i < j < |list|
    ensures list[i].count + list[j].count <= Sum(list)
  {
    if i == 0 {
      CountIsInSum(list[1..], j - 1);
    } else {
      TwoCountsInSum(list[1..], i - 1, j - 1);
    }
  }

  /** The proposal at place `i` is the last one that reaches the quota. */
  predicate WinsAt(list: seq<Proposal>, quota: UInt32, i: int)
  {
    0 <= i < |list| && list[i].count >= quota && forall j :: i < j < |list| ==> list[j].count < quota
  }

  lemma {:induction false} LastWinnerIs(list: seq<Proposal>, quota: UInt32)
    ensures LastWinner(list, quota).Some?
            <==> exists i :: 0 <= i < |list| && list[i].count >= quota
    ensures LastWinner(list, quota).Some? ==>
              exists i :: WinsAt(list, quota, i) && LastWinner(list, quota) == Some(list[i].text)
    decreases |list|
  {
    if list != [] {
      var n := |list| - 1;
      var rest := list[..n];
      LastWinnerIs(rest, quota);
      if list[n].count >= quota {
        assert WinsAt(list, quota, n);
      } else if LastWinner(rest, quota).Some? {
        var i :| WinsAt(rest, quota, i) && LastWinner(rest, quota) == Some(rest[i].text);
        assert forall j :: 0 <= j < n ==> list[j] == rest[j];
        assert WinsAt(list, quota, i);
      }
    }
  }

  /** For any answers of `n` services at most one proposal reaches the quota of floor(2n / 3) + 1, and the scan that
      keeps the last match returns that one, or none if there is none. */
  lemma OneWinner(answers: seq<Option<Vote>>)
    requires |answers| < TWO_31
    ensures var list, quota := Collect([], answers), Quota(|answers|);
            && quota == 2 * |answers| / 3 + 1
            && (forall i, j :: 0 <= i < j < |list| ==> !(list[i].count >= quota && list[j].count >= quota))
            && (forall i :: 0 <= i < |list| && list[i].count >= quota ==> LastWinner(list, quota) == Some(list[i].text))
            && (LastWinner(list, quota).Some? ==> exists i :: 0 <= i < |list| && list[i].count >= quota)
  {
    var list, quota := Collect([], answers), Quota(|answers|);
    CollectKeeps([], answers);
    LastWinnerIs(list, quota);
    hide Collect, Sum, LastWinner;
    forall i, j | 0 <= i < j < |list| ensures !(list[i].count >= quota && list[j].count >= quota) {
      TwoCountsInSum(list, i, j);
    }
  }

  // ---------- whether a vote is counted for its own text ----------

  predicate HasText(list: seq<Proposal>, t: Text)
  {
    list != [] && (list[0].text == t || HasText(list[1..], t))
  }

  predicate DistinctTexts(list: seq<Proposal>)
  {
    list == [] || (!HasText(list[1..], list[0].text) && DistinctTexts(list[1..]))
  }

  /** Proposer `q` is counted for the proposal with text `t`. */
  predicate Backs(list: seq<Proposal>, t: Text, q: Text)
  {
    list != [] && ((list[0].text == t && q in list[0].proposers) || Backs(list[1..], t, q))
  }

  /** After these answers every proposer is counted for exactly the texts it named. */
  ghost predicate Faithful(answers: seq<Option<Vote>>)
  {
    forall t, q :: Backs(Collect([], answers), t, q) <==> Some(Vote(t, q)) in answers
  }

  /** `v` is neither a proper prefix of `w` in its text, nor, for the same text, in its proposer. */
  predicate Compatible(v: Vote, w: Vote)
  {
    !(v.text < w.text) && (v.text == w.text ==> !(v.proposer < w.proposer))
  }

  /** No text is a proper prefix of another one, and no proposer's name of another one's for the same text. */
  ghost predicate PrefixFree(answers: seq<Option<Vote>>)
  {
    forall v: Vote, w: Vote {:trigger Some(v) in answers, Some(w) in answers} ::
      Some(v) in answers && Some(w) in answers ==> Compatible(v, w)
  }

  predicate Clear(list: seq<Proposal>, v: Vote)
  {
    list == [] || (&& !(v.text < list[0].text)
                   && (list[0].text == v.text ==> forall q :: q in list[0].proposers ==> !(v.proposer < q))
                   && Clear(list[1..], v))
  }

  lemma ConsParts(p: Proposal, rest: seq<Proposal>)
    ensures ([p] + rest)[0] == p && ([p] + rest)[1..] == rest
  {
  }

  lemma KnownIff(proposers: seq<Text>, v: Text)
    requires forall q :: q in proposers ==> !(v < q)
    ensures Known(proposers, v) <==> v in proposers
  {
    if Known(proposers, v) {
      var i :| 0 <= i < |proposers| && Matches(proposers[i], v);
      assert proposers[i] in proposers && !(v < proposers[i]);
      assert proposers[i] == v;
    }
    if v in proposers {
      var i :| 0 <= i < |proposers| && proposers[i] == v;
      assert Matches(proposers[i], v);
    }
  }

  lemma {:induction false} WalkTexts(list: seq<Proposal>, v: Vote, added: bool, t: Text)
    ensures HasText(list, t) ==> HasText(Walk(list, v, added), t)
    ensures HasText(Walk(list, v, added), t) ==> HasText(list, t) || (!added && t == v.text)
    decreases |list|
  {
    if list == [] {
      assert !added ==> Walk(list, v, added)[1..] == [];
    } else {
      var p, rest := list[0], list[1..];
      var next := added || Matches(p.text, v.text);
      ConsParts(Supported(p, v), rest);
      ConsParts(p, Walk(rest, v, next));
      WalkTexts(rest, v, next, t);
    }
  }

  lemma {:induction false} WalkKeepsDistinct(list: seq<Proposal>, v: Vote, added: bool)
    requires DistinctTexts(list)
    ensures DistinctTexts(Walk(list, v, added))
    decreases |list|
  {
    if list == [] {
      assert !added ==> Walk(list, v, added)[1..] == [];
    } else {
      var p, rest := list[0], list[1..];
      var next := added || Matches(p.text, v.text);
      ConsParts(Supported(p, v), rest);
      ConsParts(p, Walk(rest, v, next));
      WalkKeepsDistinct(rest, v, next);
      WalkTexts(rest, v, next, p.text);
    }
  }

  lemma {:induction false} CollectKeepsDistinct(list: seq<Proposal>, answers: seq<Option<Vote>>)
    requires DistinctTexts(list)
    ensures DistinctTexts(Collect(list, answers))
    decreases |answers|
  {
    if answers != [] {
      if answers[0].Some? {
        WalkKeepsDistinct(list, answers[0].value, false);
      }
      CollectKeepsDistinct(if answers[0].Some? then Walk(list, answers[0].value, false) else list, answers[1..]);
    }
  }

  /** A vote that no stored text extends is counted for its own text, once. */
  lemma {:induction false} WalkBacks(list: seq<Proposal>, v: Vote, added: bool, t: Text, q: Text)
    requires DistinctTexts(list) && Clear(list, v) && (added ==> !HasText(list, v.text))
    ensures Backs(Walk(list, v, added), t, q)
            <==> Backs(list, t, q) || (!added && t == v.text && q == v.proposer)
    decreases |list|
  {
    if list == [] {
      assert !added ==> Walk(list, v, added)[1..] == [];
    } else {
      var p, rest := list[0], list[1..];
      var next := added || Matches(p.text, v.text);
      assert Matches(p.text, v.text) <==> p.text == v.text;
      if p.text == v.text {
        KnownIff(p.proposers, v.proposer);
      }
      ConsParts(Supported(p, v), rest);
      ConsParts(p, Walk(rest, v, next));
      hide Known, Matches;
      WalkBacks(rest, v, next, t, q);
    }
  }

  lemma {:induction false} WalkKeepsClear(list: seq<Proposal>, v: Vote, added: bool, w: Vote)
    requires Clear(list, v) && Clear(list, w) && Compatible(w, v)
    ensures Clear(Walk(list, v, added), w)
    decreases |list|
  {
    if list == [] {
      assert !added ==> Walk(list, v, added)[1..] == [];
    } else {
      var p, rest := list[0], list[1..];
      var next := added || Matches(p.text, v.text);
      ConsParts(Supported(p, v), rest);
      ConsParts(p, Walk(rest, v, next));
      WalkKeepsClear(rest, v, next, w);
    }
  }

  lemma {:induction false} CollectBacks(list: seq<Proposal>, answers: seq<Option<Vote>>, t: Text, q: Text)
    requires DistinctTexts(list) && PrefixFree(answers)
    requires forall v {:trigger Some(v) in answers} :: Some(v) in answers ==> Clear(list, v)
    ensures Backs(Collect(list, answers), t, q) <==> Backs(list, t, q) || Some(Vote(t, q)) in answers
    ensures DistinctTexts(Collect(list, answers))
    decreases |answers|
  {
    if answers != [] {
      var rest := answers[1..];
      assert forall a :: a in rest ==> a in answers;
      assert forall a :: a in answers <==> a == answers[0] || a in rest;
      if answers[0].Some? {
        var v := answers[0].value;
        assert Some(v) in answers;
        WalkKeepsDistinct(list, v, false);
        WalkBacks(list, v, false, t, q);
        forall w | Some(w) in rest ensures Clear(Walk(list, v, false), w) {
          WalkKeepsClear(list, v, false, w);
        }
        CollectBacks(Walk(list, v, false), rest, t, q);
      } else {
        CollectBacks(list, rest, t, q);
      }
    }
  }

  lemma PrefixFreeIsFaithful(answers: seq<Option<Vote>>)
    requires PrefixFree(answers)
    ensures Faithful(answers) && DistinctTexts(Collect([], answers))
  {
    CollectBacks([], answers, "", "");
    forall t, q ensures Backs(Collect([], answers), t, q) <==> Some(Vote(t, q)) in answers {
      CollectBacks([], answers, t, q);
    }
  }

  // ---------- how a prefix loses its votes ----------

  /** Some stored text properly extends `short`. */
  predicate Extended(list: seq<Proposal>, short: Text)
  {
    list != [] && (short < list[0].text || Extended(list[1..], short))
  }

  lemma {:induction false} WalkKeepsExtended(list: seq<Proposal>, v: Vote, added: bool, short: Text)
    ensures Extended(list, short) ==> Extended(Walk(list, v, added), short)
    ensures !HasText(list, short) && (v.text == short ==> added || Extended(list, short))
            ==> !HasText(Walk(list, v, added), short)
    decreases |list|
  {
    if list == [] {
      assert !added ==> Walk(list, v, added)[1..] == [];
    } else {
      var p, rest := list[0], list[1..];
      var next := added || Matches(p.text, v.text);
      ConsParts(Supported(p, v), rest);
      ConsParts(p, Walk(rest, v, next));
      WalkKeepsExtended(rest, v, next, short);
    }
  }

  /** Once a longer text is stored, a text never gets a proposal of its own: its votes go elsewhere or nowhere. */
  lemma {:induction false} ShortIsNeverStored(list: seq<Proposal>, answers: seq<Option<Vote>>, short: Text)
    requires Extended(list, short) && !HasText(list, short)
    ensures !HasText(Collect(list, answers), short)
    decreases |answers|
  {
    if answers != [] {
      if answers[0].Some? {
        WalkKeepsExtended(list, answers[0].value, false, short);
        ShortIsNeverStored(Walk(list, answers[0].value, false), answers[1..], short);
      } else {
        ShortIsNeverStored(list, answers[1..], short);
      }
    }
  }

  lemma {:induction false} BacksHasText(list: seq<Proposal>, t: Text, q: Text)
    requires Backs(list, t, q)
    ensures HasText(list, t)
  {
    if list[0].text != t {
      BacksHasText(list[1..], t, q);
    }
  }

  /** Every proposal with text `t` takes `q` for one of its proposers although it is not. */
  predicate Masked(list: seq<Proposal>, t: Text, q: Text)
  {
    list == [] || (&& (list[0].text == t ==> Known(list[0].proposers, q) && q !in list[0].proposers)
                   && Masked(list[1..], t, q))
  }

  lemma KnownStays(proposers: seq<Text>, more: Text, q: Text)
    requires Known(proposers, q)
    ensures Known(proposers + [more], q)
  {
    var i :| 0 <= i < |proposers| && Matches(proposers[i], q);
    assert Matches((proposers + [more])[i], q);
  }

  lemma {:induction false} WalkKeepsMasked(list: seq<Proposal>, v: Vote, added: bool, t: Text, q: Text)
    requires Masked(list, t, q) && (v.text == t ==> added || HasText(list, t))
    ensures Masked(Walk(list, v, added), t, q)
    decreases |list|
  {
    if list == [] {
      assert !added ==> Walk(list, v, added)[1..] == [];
    } else {
      var p, rest := list[0], list[1..];
      var next := added || Matches(p.text, v.text);
      ConsParts(Supported(p, v), rest);
      ConsParts(p, Walk(rest, v, next));
      if Matches(p.text, v.text) && !Known(p.proposers, v.proposer) {
        if p.text == t {
          KnownStays(p.proposers, v.proposer, q);
        }
      } else {
        WalkKeepsMasked(rest, v, next, t, q);
      }
    }
  }

  lemma {:induction false} MaskedIsNotBacked(list: seq<Proposal>, t: Text, q: Text)
    requires Masked(list, t, q)
    ensures !Backs(list, t, q)
  {
    if list != [] {
      MaskedIsNotBacked(list[1..], t, q);
    }
  }

  lemma {:induction false} MaskedIsNeverCounted(list: seq<Proposal>, answers: seq<Option<Vote>>, t: Text, q: Text)
    requires Masked(list, t, q) && HasText(list, t)
    ensures !Backs(Collect(list, answers), t, q)
    decreases |answers|
  {
    if answers == [] {
      MaskedIsNotBacked(list, t, q);
    } else if answers[0].Some? {
      WalkKeepsMasked(list, answers[0].value, false, t, q);
      WalkTexts(list, answers[0].value, false, t);
      MaskedIsNeverCounted(Walk(list, answers[0].value, false), answers[1..], t, q);
    } else {
      MaskedIsNeverCounted(list, answers[1..], t, q);
    }
  }

  /** A vote is not counted for its own text if one that it is a prefix of came first. */
  lemma {:induction false} LongerFirstSpoils(answers: seq<Option<Vote>>, v: Vote, w: Vote)
    requires answers != [] && answers[0] == Some(w) && Some(v) in answers && !Compatible(v, w)
    ensures !Backs(Collect([], answers), v.text, v.proposer) && !Faithful(answers)
  {
    var list := [Create(w)];
    assert Walk([], w, false) == list && list[1..] == [];
    assert Collect([], answers) == Collect(list, answers[1..]);
    if v.text < w.text {
      assert Extended(list, v.text) && !HasText(list, v.text);
      ShortIsNeverStored(list, answers[1..], v.text);
      if Backs(Collect([], answers), v.text, v.proposer) {
        BacksHasText(Collect([], answers), v.text, v.proposer);
      }
    } else {
      assert Matches(list[0].proposers[0], v.proposer);
      assert Masked(list, v.text, v.proposer) && HasText(list, v.text);
      MaskedIsNeverCounted(list, answers[1..], v.text, v.proposer);
    }
  }

  lemma MoveToFront<T>(s: seq<T>, j: nat) returns (r: seq<T>)
    requires j < |s|
    ensures |r| > 0 && r[0] == s[j] && multiset(r) == multiset(s)
  {
    r := [s[j]] + s[..j] + s[j + 1..];
    assert s == s[..j] + [s[j]] + s[j + 1..];
  }

  lemma SameElements<T>(s: seq<T>, r: seq<T>)
    requires multiset(s) == multiset(r)
    ensures forall x :: x in s <==> x in r
  {
    assert forall x :: x in s <==> x in multiset(s);
    assert forall x :: x in r <==> x in multiset(r);
  }

  /** Each vote is counted for exactly its own text, in whatever order the answers arrive, exactly if no text, and
      for the same text no proposer's name, is a proper prefix of another one. */
  lemma FaithfulInEveryOrderIff(answers: seq<Option<Vote>>)
    ensures PrefixFree(answers)
            <==> forall order {:trigger Faithful(order)} :: multiset(order) == multiset(answers) ==> Faithful(order)
  {
    if PrefixFree(answers) {
      forall order: seq<Option<Vote>> | multiset(order) == multiset(answers) ensures Faithful(order) {
        SameElements(answers, order);
        PrefixFreeIsFaithful(order);
      }
    } else {
      var v: Vote, w: Vote :| Some(v) in answers && Some(w) in answers && !Compatible(v, w);
      var j :| 0 <= j < |answers| && answers[j] == Some(w);
      var order := MoveToFront(answers, j);
      SameElements(answers, order);
      LongerFirstSpoils(order, v, w);
    }
  }

  /** Two votes, one text a proper prefix of the other: the later of them decides. */
  lemma PrefixVotesAreOrdered(long: Text, short: Text, p: Text, q: Text)
    requires short < long
    ensures Collect([], [Some(Vote(long, p)), Some(Vote(short, q))])
            == if q <= p then [Proposal(long, [p], 1)] else [Proposal(long, [p, q], 2)]
    ensures Collect([], [Some(Vote(short, q)), Some(Vote(long, p))])
            == [Proposal(short, [q], 1), Proposal(long, [p], 1)]
  {
    var v, w := Vote(long, p), Vote(short, q);
    var a, b: Option<Vote> := Some(v), Some(w);
    assert [a, b][1..] == [b] && [b][1..] == [] && [b, a][1..] == [a] && [a][1..] == [];
    assert short <= long && !(long <= short);
    assert Walk([], v, false) == [Create(v)] && Walk([], w, false) == [Create(w)];
    assert Known([p], q) <==> q <= p by {
      if q <= p {
        assert Matches([p][0], q);
      }
    }
    assert [Create(v)][1..] == [] && [Create(w)][1..] == [];
    assert [p] + [q] == [p, q];
    assert Collect([Create(v)], [b]) == Walk([Create(v)], w, false);
    assert Collect([Create(w)], [a]) == Walk([Create(w)], v, false);
    assert Walk([Create(w)], v, false) == [Create(w)] + Walk([], v, false);
  }

  // ---------- counts and winners by name ----------

  /** The services that named this text. */
  function Supporters(answers: seq<Option<Vote>>, t: Text): set<Text>
  {
    set i | 0 <= i < |answers| && answers[i].Some? && answers[i].value.text == t :: answers[i].value.proposer
  }

  lemma SupportersAre(answers: seq<Option<Vote>>, t: Text, q: Text)
    ensures q in Supporters(answers, t) <==> Some(Vote(t, q)) in answers
  {
    if Some(Vote(t, q)) in answers {
      var i :| 0 <= i < |answers| && answers[i] == Some(Vote(t, q));
      assert answers[i].value.proposer in Supporters(answers, t);
    }
    if q in Supporters(answers, t) {
      var i :| 0 <= i < |answers| && answers[i].Some? && answers[i].value.text == t && answers[i].value.proposer == q;
      assert answers[i] == Some(Vote(t, q));
    }
  }

  lemma {:induction false} SetOfDistinct(s: seq<Text>, elements: set<Text>)
    requires forall i, j :: 0 <= i < j < |s| ==> s[i] != s[j]
    requires forall x :: x in s <==> x in elements
    ensures |s| == |elements|
  {
    if s == [] {
      assert elements == {};
    } else {
      assert forall x :: x in s[1..] <==> x in elements - {s[0]};
      SetOfDistinct(s[1..], elements - {s[0]});
    }
  }

  lemma {:induction false} BacksAt(list: seq<Proposal>, i: nat, q: Text)
    requires DistinctTexts(list) && i < |list|
    ensures HasText(list, list[i].text)
    ensures Backs(list, list[i].text, q) <==> q in list[i].proposers
  {
    if i == 0 {
      if Backs(list[1..], list[0].text, q) {
        BacksHasText(list[1..], list[0].text, q);
      }
    } else {
      BacksAt(list[1..], i - 1, q);
    }
  }

  lemma {:induction false} BackedAt(list: seq<Proposal>, t: Text, q: Text) returns (i: nat)
    requires Backs(list, t, q)
    ensures i < |list| && list[i].text == t
  {
    if list[0].text == t {
      i := 0;
    } else {
      i := BackedAt(list[1..], t, q);
      i := i + 1;
    }
  }

  /** If each vote is counted for its own text, each count is the number of distinct services that named exactly the
      proposal's text. */
  lemma CountIsSupport(answers: seq<Option<Vote>>, i: nat)
    requires Faithful(answers) && |answers| < TWO_32 && i < |Collect([], answers)|
    ensures var p := Collect([], answers)[i];
            p.count == |Supporters(answers, p.text)|
  {
    var list := Collect([], answers);
    CollectKeeps([], answers);
    CollectKeepsDistinct([], answers);
    var p := list[i];
    assert Counted(p);
    hide Collect, Backs, DistinctTexts, HasText, Supporters;
    forall q ensures q in p.proposers <==> q in Supporters(answers, p.text) {
      BacksAt(list, i, q);
      SupportersAre(answers, p.text, q);
    }
    SetOfDistinct(p.proposers, Supporters(answers, p.text));
  }

  /** And a text wins exactly if it was named by at least floor(2n / 3) + 1 of them. */
  lemma WinnerIsNamed(answers: seq<Option<Vote>>, t: Text)
    requires Faithful(answers) && |answers| < TWO_31
    ensures LastWinner(Collect([], answers), Quota(|answers|)) == Some(t)
            <==> |Supporters(answers, t)| >= 2 * |answers| / 3 + 1
  {
    var list, quota := Collect([], answers), Quota(|answers|);
    OneWinner(answers);
    LastWinnerIs(list, quota);
    hide Collect, LastWinner, Quota, DistinctTexts, HasText, Supporters;
    if LastWinner(list, quota) == Some(t) {
      var i :| WinsAt(list, quota, i) && LastWinner(list, quota) == Some(list[i].text);
      CountIsSupport(answers, i);
    }
    if |Supporters(answers, t)| >= 2 * |answers| / 3 + 1 {
      var q :| q in Supporters(answers, t);
      SupportersAre(answers, t, q);
      assert Backs(list, t, q);
      var i := BackedAt(list, t, q);
      CountIsSupport(answers, i);
    }
  }

  // ---------- the configurator ----------

  lemma WalkAt(list: seq<Proposal>, i: nat, v: Vote, added: bool)
    requires i < |list|
    ensures list[..i] + Walk(list[i..], v, added)
            == if v.text <= list[i].text && !Known(list[i].proposers, v.proposer) then list[i := Supported(list[i], v)]
               else list[..i + 1] + Walk(list[i + 1..], v, added || v.text <= list[i].text)
  {
    hide Known;
    var rest := list[i..];
    assert rest[0] == list[i] && rest[1..] == list[i + 1..];
    assert list[..i + 1] == list[..i] + [list[i]];
    if Matches(list[i].text, v.text) && !Known(list[i].proposers, v.proposer) {
      assert list[i := Supported(list[i], v)] == list[..i] + ([Supported(list[i], v)] + list[i + 1..]);
    } else {
      var more := Walk(list[i + 1..], v, added || Matches(list[i].text, v.text));
      assert list[..i] + ([list[i]] + more) == (list[..i] + [list[i]]) + more;
    }
  }

  lemma WalkEnds(list: seq<Proposal>, v: Vote, added: bool)
    ensures list[..|list|] + Walk(list[|list|..], v, added) == if added then list else list + [Create(v)]
  {
    assert list[|list|..] == [] && list[..|list|] == list;
  }

  class Configurator {
    var proposals: seq<Proposal>

    constructor ()
      ensures proposals == []
    {
      proposals := [];
    }

    method IsKnown(proposers: seq<Text>, proposer: Text) returns (known: bool)
      ensures known <==> Known(proposers, proposer)
    {
      var i := 0;
      while i < |proposers|
        invariant 0 <= i <= |proposers|
        invariant forall j :: 0 <= j < i ==> !Matches(proposers[j], proposer)
      {
        if proposer <= proposers[i] {
          return true;
        }
        i := i + 1;
      }
      return false;
    }

    /** Count the vote for the first matching proposal that does not have it; without a match, store a new one. */
    method AddProposal(v: Vote)
      modifies this
      ensures proposals == Walk(old(proposals), v, false)
    {
      hide Walk, Known, Matches;
      var added := false;
      var i := 0;
      assert proposals[0..] == proposals && [] + Walk(proposals, v, false) == Walk(proposals, v, false);
      while i < |proposals|
        invariant 0 <= i <= |proposals| && proposals == old(proposals)
        invariant proposals[..i] + Walk(proposals[i..], v, added) == Walk(old(proposals), v, false)
      {
        var entry := proposals[i];
        WalkAt(proposals, i, v, added);
        if v.text <= entry.text {
          var known := IsKnown(entry.proposers, v.proposer);
          if known {
            added := true;
          } else {
            entry := entry.(proposers := entry.proposers + [v.proposer], count := Add32(entry.count, 1));
            proposals := proposals[i := entry];
            return;
          }
        }
        i := i + 1;
      }
      WalkEnds(proposals, v, added);
      if !added {
        proposals := proposals + [Proposal(v.text, [v.proposer], 1)];
      }
    }

    method GetMajorityVote(services: UInt32) returns (winner: Option<Text>)
      ensures winner == LastWinner(proposals, Quota(services))
    {
      winner := None;
      var i := 0;
      while i < |proposals|
        invariant 0 <= i <= |proposals|
        invariant winner == LastWinner(proposals[..i], Quota(services))
      {
        assert proposals[..i + 1][..i] == proposals[..i];
        if proposals[i].count >= Quota(services) {
          winner := Some(proposals[i].text);
        }
        i := i + 1;
      }
      assert proposals[..i] == proposals;
    }

    /** Ask every info service in turn, then vote; `answers` is what the services return, if they do. */
    method Configure(answers: seq<Option<Vote>>) returns (winner: Option<Text>)
      requires |answers| < TWO_32
      modifies this
      ensures proposals == Collect(old(proposals), answers)
      ensures winner == LastWinner(proposals, Quota(|answers|))
    {
      var i := 0;
      while i < |answers|
        invariant 0 <= i <= |answers|
        invariant Collect(proposals, answers[i..]) == Collect(old(proposals), answers)
      {
        assert answers[i..][1..] == answers[i + 1..];
        if answers[i].Some? {
          AddProposal(answers[i].value);
        }
        i := i + 1;
      }
      winner := GetMajorityVote(|answers|);
    }
  }
}
