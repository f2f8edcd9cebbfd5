/** The `assignments` table of server.js and the three handlers that use it:
    `/api/assign` wipes and refills it, `/api/reveal` marks one row as picked,
    `/api/progress` counts the picked rows. The SQLite table is a map from
    `santa` (the table's unique key) to the rest of the row. */
module AssignmentStore {
  import opened Sequences
  import opened Shuffling
  import opened Derangement

  /** The fixed roster `PARTICIPANTS` of server.js. */
  const Participants: seq<Name> :=
    ["Belinda", "Bella", "Bonita", "Crystal", "Christine", "Ken", "Michael", "Travis"]

  /** The roster of server.js meets what the store asks of a roster. */
  lemma ParticipantsAreDistinct()
    ensures |Participants| == 8 && Distinct(Participants)
  {
  }

  /** A row of `assignments` without its key: the `recipient` column and the
      `picked` column, which only ever holds 0 (false) or 1 (true). */
  datatype Row = Row(recipient: Name, picked: bool)

  /** The refusals of `/api/reveal`: HTTP 400 "Invalid name", 404 "No assignment
      found" and 403 "You already picked!". */
  datatype RevealError = InvalidName | NotFound | AlreadyPicked

  datatype RevealOutcome = Revealed(recipient: Name) | Refused(error: RevealError)

  /** The response of `/api/progress`. */
  datatype ProgressReport = ProgressReport(picked: nat, total: nat)

  /** The table after inserting `(santas[i], recipients[i], 0)` for every `i`
      in order into an empty table. */
  function Pairing(santas: seq<Name>, recipients: seq<Name>): (rows: map<Name, Row>)
    requires |santas| == |recipients|
    ensures rows.Keys == Elements(santas)
  {
    if santas == [] then map[]
    else
      var n := |santas| - 1;
      assert santas == santas[..n] + [santas[n]];
      Pairing(santas[..n], recipients[..n])[santas[n] := Row(recipients[n], false)]
  }

  /** The number of rows whose `picked` is set (`COUNT(*) ... WHERE picked = 1`). */
  function PickedCount(rows: map<Name, Row>): (count: nat)
    ensures count <= |rows|
  {
    var picked := set s | s in rows && rows[s].picked;
    SubsetCardinality(picked, rows.Keys);
    |picked|
  }

  /** The table holds a complete assignment for `roster`: one row per
      participant, nobody drawing themselves, every recipient a participant,
      and no two santas sharing a recipient (so that, by
      `EveryParticipantDrawn`, every participant is drawn by exactly one santa). */
  ghost predicate IsAssignmentSet(roster: seq<Name>, rows: map<Name, Row>) {
    && rows.Keys == Elements(roster)
    && (forall s :: s in rows ==> rows[s].recipient != s && rows[s].recipient in roster)
    && (forall s, t :: s in rows && t in rows && s != t ==> rows[s].recipient != rows[t].recipient)
  }

  /** Inserting the pairs of a roster without repeated names gives one row per
      santa, holding that santa's recipient and `picked = 0`. */
  lemma {:induction false} PairingRows(santas: seq<Name>, recipients: seq<Name>)
    requires |santas| == |recipients|
    requires Distinct(santas)
    ensures Pairing(santas, recipients).Keys == Elements(santas)
    ensures forall k :: 0 <= k < |santas| ==>
      Pairing(santas, recipients)[santas[k]] == Row(recipients[k], false)
  {
    if santas != [] {
      var n := |santas| - 1;
      var prefix, rest := santas[..n], recipients[..n];
      assert Distinct(prefix);
      PairingRows(prefix, rest);
      forall k | 0 <= k < n
        ensures Pairing(santas, recipients)[santas[k]] == Row(recipients[k], false)
      {
        assert santas[k] == prefix[k] && recipients[k] == rest[k];
      }
    }
  }

  /** The rows `/api/assign` inserts form a complete assignment in which
      nobody has picked yet. */
  lemma PairingIsAssignmentSet(roster: seq<Name>, recipients: seq<Name>)
    requires Distinct(roster)
    requires NoSelfAssignment(roster, recipients)
    requires multiset(recipients) == multiset(roster)
    ensures IsAssignmentSet(roster, Pairing(roster, recipients))
    ensures PickedCount(Pairing(roster, recipients)) == 0
  {
    PermutationOfDistinct(roster, recipients);
    PairingRowsValid(roster, recipients);
    PairingInjective(roster, recipients);
  }

  lemma PairingRowsValid(roster: seq<Name>, recipients: seq<Name>)
    requires Distinct(roster)
    requires NoSelfAssignment(roster, recipients)
    requires Elements(recipients) == Elements(roster)
    ensures Pairing(roster, recipients).Keys == Elements(roster)
    ensures forall s :: s in Pairing(roster, recipients) ==>
      var row := Pairing(roster, recipients)[s]; row.recipient != s && row.recipient in roster && !row.picked
    ensures PickedCount(Pairing(roster, recipients)) == 0
  {
    var rows := Pairing(roster, recipients);
    PairingRows(roster, recipients);
    forall s | s in rows
      ensures rows[s].recipient != s && rows[s].recipient in roster && !rows[s].picked
    {
      var k :| 0 <= k < |roster| && roster[k] == s;
      assert recipients[k] in Elements(recipients);
    }
    assert (set s | s in rows && rows[s].picked) == {};
  }

  lemma PairingInjective(roster: seq<Name>, recipients: seq<Name>)
    requires Distinct(roster) && Distinct(recipients)
    requires |roster| == |recipients|
    ensures forall s, t :: s in Pairing(roster, recipients) && t in Pairing(roster, recipients) && s != t ==>
      Pairing(roster, recipients)[s].recipient != Pairing(roster, recipients)[t].recipient
  {
    var rows := Pairing(roster, recipients);
    PairingRows(roster, recipients);
    forall s, t | s in rows && t in rows && s != t
      ensures rows[s].recipient != rows[t].recipient
    {
      assert s in Elements(roster) && t in Elements(roster);
      var a :| 0 <= a < |roster| && roster[a] == s;
      var b :| 0 <= b < |roster| && roster[b] == t;
      assert rows[s] == Row(recipients[a], false) && rows[t] == Row(recipients[b], false);
      assert a != b;
    }
  }

  /** The body of `/api/reveal`: check the name against the roster, look the
      row up, refuse if it is already picked, otherwise mark it and answer with
      the recipient. Yields the response and the new table. */
  function RevealStep(roster: seq<Name>, rows: map<Name, Row>, name: Name): (r: (RevealOutcome, map<Name, Row>))
    ensures r.0.Revealed? <==> name in roster && name in rows && !rows[name].picked
    ensures r.0.Revealed? ==> name in r.1 && r.0.recipient == rows[name].recipient && r.1[name].picked
    ensures r.1.Keys == rows.Keys
    ensures r.0.Refused? ==> r.1 == rows
  {
    if name !in roster then (Refused(InvalidName), rows)
    else if name !in rows then (Refused(NotFound), rows)
    else if rows[name].picked then (Refused(AlreadyPicked), rows)
    else (Revealed(rows[name].recipient), rows[name := rows[name].(picked := true)])
  }

  /** Each refusal of `/api/reveal` leaves the table as it was. */
  lemma RevealRefusals(roster: seq<Name>, rows: map<Name, Row>, name: Name)
    ensures name !in roster ==> RevealStep(roster, rows, name) == (Refused(InvalidName), rows)
    ensures name in roster && name !in rows ==> RevealStep(roster, rows, name) == (Refused(NotFound), rows)
    ensures name in roster && name in rows && rows[name].picked ==>
      RevealStep(roster, rows, name) == (Refused(AlreadyPicked), rows)
    ensures RevealStep(roster, rows, name).0.Refused? ==> RevealStep(roster, rows, name).1 == rows
  {
  }

  /** A successful reveal answers with the stored recipient, sets `picked` on
      that santa's row only, raises the count of picked rows by one, and makes
      every later reveal of the same name fail with `AlreadyPicked`. */
  lemma RevealMarksOnce(roster: seq<Name>, rows: map<Name, Row>, name: Name)
    requires name in roster && name in rows && !rows[name].picked
    ensures RevealStep(roster, rows, name).0 == Revealed(rows[name].recipient)
    ensures var after := RevealStep(roster, rows, name).1;
      && after.Keys == rows.Keys
      && after[name] == Row(rows[name].recipient, true)
      && (forall s :: s in rows && s != name ==> after[s] == rows[s])
      && PickedCount(after) == PickedCount(rows) + 1
      && RevealStep(roster, after, name) == (Refused(AlreadyPicked), after)
  {
    var after := RevealStep(roster, rows, name).1;
    var before := set s | s in rows && rows[s].picked;
    assert (set s | s in after && after[s].picked) == before + {name};
  }

  /** Reveals only flip `picked`, so a complete assignment stays complete. */
  lemma RevealPreservesAssignmentSet(roster: seq<Name>, rows: map<Name, Row>, name: Name)
    requires IsAssignmentSet(roster, rows)
    ensures IsAssignmentSet(roster, RevealStep(roster, rows, name).1)
  {
  }

  /** The recipients drawn by the santas in `santas`. */
  ghost function RecipientsOf(rows: map<Name, Row>, santas: set<Name>): set<Name>
    requires santas <= rows.Keys
  {
    set s | s in santas :: rows[s].recipient
  }

  /** Santas with pairwise different recipients draw as many recipients as there are santas. */
  lemma {:induction false} InjectiveRecipients(rows: map<Name, Row>, santas: set<Name>)
    requires santas <= rows.Keys
    requires forall s, t :: s in santas && t in santas && s != t ==> rows[s].recipient != rows[t].recipient
    ensures |RecipientsOf(rows, santas)| == |santas|
    decreases |santas|
  {
    if santas != {} {
      var x :| x in santas;
      var rest := santas - {x};
      InjectiveRecipients(rows, rest);
      assert RecipientsOf(rows, santas) == RecipientsOf(rows, rest) + {rows[x].recipient};
      assert rows[x].recipient !in RecipientsOf(rows, rest);
    }
  }

  /** In a complete assignment every participant is somebody's recipient:
      santa to recipient is a bijection of the roster onto itself. */
  lemma EveryParticipantDrawn(roster: seq<Name>, rows: map<Name, Row>, r: Name)
    requires IsAssignmentSet(roster, rows)
    requires r in roster
    ensures exists s :: s in rows && rows[s].recipient == r
  {
    var drawn := RecipientsOf(rows, rows.Keys);
    InjectiveRecipients(rows, rows.Keys);
    if r !in drawn {
      assert drawn <= rows.Keys - {r};
      SubsetCardinality(drawn, rows.Keys - {r});
      assert false;
    }
  }

  /** With distinct names the number of picked rows never exceeds the roster size. */
  lemma PickedCountBounded(roster: seq<Name>, rows: map<Name, Row>)
    requires Distinct(roster)
    requires rows.Keys <= Elements(roster)
    ensures PickedCount(rows) <= |roster|
  {
    var picked := set s | s in rows && rows[s].picked;
    assert picked <= Elements(roster);
    SubsetCardinality(picked, Elements(roster));
    DistinctCardinality(roster);
  }

  lemma {:induction false} SubsetCardinality(a: set<Name>, b: set<Name>)
    requires a <= b
    ensures |a| <= |b|
    decreases |b|
  {
    if b != {} {
      var x :| x in b;
      SubsetCardinality(a - {x}, b - {x});
    }
  }

  /** The `assignments` table, with the roster it was configured with. */
  class Store {
    const participants: seq<Name>
    var rows: map<Name, Row>

    /** The table is empty (never assigned, or wiped by an assign whose
        reshuffling has not ended) or holds a complete assignment. */
    ghost predicate Valid()
      reads this
    {
      && Distinct(participants)
      && (rows == map[] || IsAssignmentSet(participants, rows))
    }

    /** A freshly created table (`CREATE TABLE IF NOT EXISTS`) holds no rows. */
    constructor (participants: seq<Name>)
      requires Distinct(participants)
      ensures Valid()
      ensures this.participants == participants && rows == map[]
    {
      this.participants := participants;
      rows := map[];
    }

    /** `/api/assign`: delete every row, draw recipients until nobody has
        themselves, and insert one row per participant with `picked = 0`.
        If the supplied draws run out the table stays empty and no response
        is sent. */
    method Assign(attempts: seq<seq<real>>) returns (success: bool)
      requires Valid()
      requires ValidAttempts(attempts, |participants|)
      modifies this
      ensures Valid()
      ensures success == FirstDerangement(participants, attempts).Some?
      ensures success ==> rows == Pairing(participants, FirstDerangement(participants, attempts).value)
      ensures success ==> IsAssignmentSet(participants, rows) && PickedCount(rows) == 0
      ensures !success ==> rows == map[]
    {
      rows := map[];
      var santas := participants;
      var recipients := AssignRecipients(participants, attempts);
      if recipients.None? {
        return false;
      }
      var chosen := recipients.value;
      InsertRows(santas, chosen);
      FirstDerangementSound(participants, attempts);
      PairingIsAssignmentSet(participants, chosen);
      success := true;
    }

    /** The prepared `INSERT ... VALUES (?, ?, 0)` run for every index, in
        order, on the table `DELETE` has just emptied. */
    method InsertRows(santas: seq<Name>, recipients: seq<Name>)
      requires rows == map[]
      requires |santas| == |recipients|
      requires Distinct(santas)
      modifies this
      ensures rows == Pairing(santas, recipients)
    {
      var i := 0;
      while i < |santas|
        invariant 0 <= i <= |santas|
        invariant rows == Pairing(santas[..i], recipients[..i])
      {
        assert santas[..i + 1][..i] == santas[..i] && recipients[..i + 1][..i] == recipients[..i];
        rows := rows[santas[i] := Row(recipients[i], false)];
        i := i + 1;
      }
      assert santas[..i] == santas && recipients[..i] == recipients;
    }

    /** `/api/reveal`: the response and the new table are those of `RevealStep`.
        It succeeds exactly for a listed name whose row exists and is not yet
        picked, and then raises the number of picked rows by one; a refusal
        changes nothing. */
    method Reveal(name: Name) returns (outcome: RevealOutcome)
      requires Valid()
      modifies this
      ensures Valid()
      ensures (outcome, rows) == RevealStep(participants, old(rows), name)
      ensures outcome.Revealed? <==> name in participants && name in old(rows) && !old(rows)[name].picked
      ensures outcome.Revealed? ==> PickedCount(rows) == PickedCount(old(rows)) + 1
      ensures outcome.Refused? ==> rows == old(rows)
    {
      if name !in participants {
        return Refused(InvalidName);
      }
      if name !in rows {
        return Refused(NotFound);
      }
      var row := rows[name];
      if row.picked {
        return Refused(AlreadyPicked);
      }
      RevealMarksOnce(participants, rows, name);
      RevealPreservesAssignmentSet(participants, rows, name);
      rows := rows[name := row.(picked := true)];
      outcome := Revealed(row.recipient);
    }

    /** `/api/progress`: how many rows are picked, out of the roster size. The
        count never exceeds the total, and once an assignment exists the total
        is the number of rows. */
    function Progress(): (report: ProgressReport)
      reads this
      requires Valid()
      ensures report.picked <= report.total
      ensures rows != map[] ==> report.total == |rows|
    {
      PickedCountBounded(participants, rows);
      DistinctCardinality(participants);
      ProgressReport(PickedCount(rows), |participants|)
    }
  }

  /** `Eve` is not one of the participants of server.js. */
  lemma OutsiderNotInRoster()
    ensures "Eve" !in Participants
  {
  }

  /** An assign whose first shuffle draws only zeros succeeds at once and
      rotates the roster by one place. */
  lemma ZeroDrawsAssignment()
    ensures ValidAttempts([seq(|Participants| - 1, _ => 0.0)], |Participants|)
    ensures FirstDerangement(Participants, [seq(|Participants| - 1, _ => 0.0)])
      == Some(Participants[1..] + [Participants[0]])
  {
    ShuffledZeroDrawsRotates(Participants, seq(|Participants| - 1, _ => 0.0));
    RotatedParticipantsDeranged();
  }

  lemma RotatedParticipantsDeranged()
    ensures NoSelfAssignment(Participants, Participants[1..] + [Participants[0]])
  {
  }

  /** In the rotated assignment `Bella` draws `Bonita`. */
  lemma RotatedPairingOfBella()
    ensures "Bella" in Pairing(Participants, Participants[1..] + [Participants[0]])
    ensures Pairing(Participants, Participants[1..] + [Participants[0]])["Bella"] == Row("Bonita", false)
  {
    var rotated := Participants[1..] + [Participants[0]];
    ParticipantsAreDistinct();
    PairingRows(Participants, rotated);
    assert Participants[1] == "Bella" && rotated[1] == "Bonita";
  }

  /** A client of the store on the roster of server.js: an assign whose first
      shuffle draws only zeros, after which `Bella` draws `Bonita`. */
  method AssignRotated() returns (store: Store)
    ensures fresh(store) && store.Valid() && store.participants == Participants
    ensures "Bella" in store.rows && store.rows["Bella"] == Row("Bonita", false)
    ensures PickedCount(store.rows) == 0
  {
    ParticipantsAreDistinct();
    store := new Store(Participants);
    var zeros := seq(|Participants| - 1, _ => 0.0);
    ZeroDrawsAssignment();
    RotatedPairingOfBella();
    var ok := store.Assign([zeros]);
  }

  /** The rest of that client: reveal of `Bella`, a refused second reveal,
      progress of one out of eight, and a refused name outside the roster. */
  method RevealScenario() {
    var store := AssignRotated();
    assert Participants[1] == "Bella";
    RevealMarksOnce(Participants, store.rows, "Bella");
    var first := store.Reveal("Bella");
    assert first == Revealed("Bonita");
    RevealAgainAndProgress(store);
  }

  method RevealAgainAndProgress(store: Store)
    requires store.Valid() && store.participants == Participants
    requires "Bella" in store.rows && store.rows["Bella"].picked
    requires PickedCount(store.rows) == 1
    modifies store
  {
    var again := store.Reveal("Bella");
    assert again == Refused(AlreadyPicked);
    assert store.Progress() == ProgressReport(1, 8);
    OutsiderNotInRoster();
    var stranger := store.Reveal("Eve");
    assert stranger == Refused(InvalidName);
  }
}
