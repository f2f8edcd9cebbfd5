/** The retry loop of the `/api/assign` handler in server.js: pair `santas[i]`
    with `recipients[i]`, and reshuffle until nobody is paired with themselves.

    `Math.random()` is a parameter: `attempts[k]` holds the draws of the k-th
    call of `shuffle`, the first one before the loop and one more for every
    restart. server.js retries without bound; the model stops with `None`
    when the supplied attempts run out. */
module Derangement {
  import opened Sequences
  import opened Shuffling

  type Name = string

  datatype Option<T> = None | Some(value: T)

  /** Nobody is paired with themselves: `santas[i] != recipients[i]` at every index. */
  predicate NoSelfAssignment(santas: seq<Name>, recipients: seq<Name>) {
    |santas| == |recipients| &&
    forall i :: 0 <= i < |santas| ==> santas[i] != recipients[i]
  }

  /** Every attempt carries enough draws in [0, 1) for a shuffle of `n` names. */
  predicate ValidAttempts(attempts: seq<seq<real>>, n: int) {
    forall k :: 0 <= k < |attempts| ==> ValidDraws(attempts[k], n)
  }

  /** Rejection sampling as a whole: the first shuffle of the roster, in the
      order the attempts are drawn, that has no fixed point. */
  function FirstDerangement(roster: seq<Name>, attempts: seq<seq<real>>): (r: Option<seq<Name>>)
    requires ValidAttempts(attempts, |roster|)
    ensures r.Some? ==> NoSelfAssignment(roster, r.value)
  {
    if attempts == [] then None
    else
      var candidate := Shuffled(roster, attempts[0]);
      if NoSelfAssignment(roster, candidate) then Some(candidate)
      else FirstDerangement(roster, attempts[1..])
  }

  /** What the loop leaves in `recipients` has no fixed point and is a
      permutation of the roster; with distinct names it is a bijection onto it. */
  lemma {:induction false} FirstDerangementSound(roster: seq<Name>, attempts: seq<seq<real>>)
    requires ValidAttempts(attempts, |roster|)
    requires FirstDerangement(roster, attempts).Some?
    ensures NoSelfAssignment(roster, FirstDerangement(roster, attempts).value)
    ensures multiset(FirstDerangement(roster, attempts).value) == multiset(roster)
  {
    ShuffledIsPermutation(roster, attempts[0]);
    if !NoSelfAssignment(roster, Shuffled(roster, attempts[0])) {
      FirstDerangementSound(roster, attempts[1..]);
    }
  }

  /** The search finds a derangement exactly when one of the attempts shuffles
      the roster into one. */
  lemma {:induction false} FirstDerangementComplete(roster: seq<Name>, attempts: seq<seq<real>>)
    requires ValidAttempts(attempts, |roster|)
    ensures FirstDerangement(roster, attempts).Some? <==>
      exists k :: 0 <= k < |attempts| && NoSelfAssignment(roster, Shuffled(roster, attempts[k]))
  {
    if attempts != [] {
      FirstDerangementComplete(roster, attempts[1..]);
      if exists k :: 0 <= k < |attempts| && NoSelfAssignment(roster, Shuffled(roster, attempts[k])) {
        var k :| 0 <= k < |attempts| && NoSelfAssignment(roster, Shuffled(roster, attempts[k]));
        if k > 0 {
          assert attempts[k] == attempts[1..][k - 1];
        }
      } else {
        assert !NoSelfAssignment(roster, Shuffled(roster, attempts[0]));
      }
    }
  }

  /** With a single participant every shuffle pairs them with themselves, so the
      loop never exits: however many attempts are supplied, none succeeds. */
  lemma {:induction false} SingleParticipantNeverAssigned(roster: seq<Name>, attempts: seq<seq<real>>)
    requires |roster| == 1
    requires ValidAttempts(attempts, |roster|)
    ensures FirstDerangement(roster, attempts) == None
  {
    if attempts != [] {
      ShuffledIsPermutation(roster, attempts[0]);
      var r := Shuffled(roster, attempts[0]);
      assert r[0] in multiset(roster);
      assert r[0] == roster[0];
      SingleParticipantNeverAssigned(roster, attempts[1..]);
    }
  }

  /** For a roster of at least two distinct names the loop can exit: the draws
      that are all 0 rotate the roster by one place, which moves everybody. */
  lemma DerangementReachable(roster: seq<Name>)
    requires |roster| >= 2
    requires Distinct(roster)
    ensures exists draws :: ValidDraws(draws, |roster|) && NoSelfAssignment(roster, Shuffled(roster, draws))
  {
    var zeros := seq(|roster| - 1, _ => 0.0);
    ShuffledZeroDrawsRotates(roster, zeros);
    var r := Shuffled(roster, zeros);
    forall i | 0 <= i < |roster| ensures roster[i] != r[i] {
      if i < |roster| - 1 {
        assert r[i] == roster[i + 1];
      } else {
        assert r[i] == roster[0];
      }
    }
  }

  /** The loop of server.js:44-51: shuffle, scan `i` upwards, and on a fixed point
      reshuffle and restart the scan from index 0 (`i = -1` followed by `i++`). */
  method AssignRecipients(participants: seq<Name>, attempts: seq<seq<real>>)
    returns (recipients: Option<seq<Name>>)
    requires ValidAttempts(attempts, |participants|)
    ensures recipients == FirstDerangement(participants, attempts)
    ensures recipients.Some? ==> NoSelfAssignment(participants, recipients.value)
  {
    if attempts == [] {
      return None;
    }
    var santas := participants;
    var used := 1;
    var current := Shuffle(participants, attempts[0]);
    var i := 0;
    while i < |santas|
      invariant 1 <= used <= |attempts|
      invariant 0 <= i <= |santas| == |current|
      invariant current == Shuffled(participants, attempts[used - 1])
      invariant forall k :: 0 <= k < i ==> santas[k] != current[k]
      invariant FirstDerangement(participants, attempts[used - 1..]) == FirstDerangement(participants, attempts)
      decreases |attempts| - used, |santas| - i
    {
      if santas[i] == current[i] {
        assert !NoSelfAssignment(participants, current);
        assert attempts[used - 1..][1..] == attempts[used..];
        if used == |attempts| {
          // server.js keeps reshuffling; the supplied draws are exhausted
          return None;
        }
        current := Shuffle(participants, attempts[used]);
        used := used + 1;
        i := 0;
      } else {
        i := i + 1;
      }
    }
    recipients := Some(current);
  }
}
