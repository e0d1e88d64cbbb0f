/** The hash-linked release chain: the successor block an assembly derives
    (scripts/assemble_release_index.py) and the transition the release contract allows
    (packages/release-contracts/src/stateport_release/contract.py). */
module ReleaseChain {
  import opened Text
  import opened Semver
  import opened ReleasePrecedence
  import opened QualificationEvent

  datatype Status = Active | Deprecated | Withdrawn

  function Rank(s: Status): nat {
    match s case Active => 0 case Deprecated => 1 case Withdrawn => 2
  }

  datatype Disposition = Disposition(sequence: int, status: Status, at: Option<int>, previousDigest: Option<string>)

  /** What a block says of its predecessor: its identity, its payload digest and the whole index. */
  datatype Claim = Claim(releaseId: string, version: string, payloadDigest: string, rawIndex: Release)

  datatype Successor = Successor(event: Event, disposition: Disposition, predecessor: Option<Claim>,
                                 boundVersion: string)

  /** A release index; a legacy one carries no successor block. */
  datatype Release = Release(releaseId: string, version: string, successor: Option<Successor>)

  /** The canonical digests in use; any functions will do. */
  datatype Digests = Digests(event: EventDigest, disposition: Disposition -> string, payload: Release -> string)

  function Previous(pred: Option<Release>): Option<Successor> {
    if pred.Some? then pred.value.successor else None
  }

  function ClaimOf(pred: Option<Release>, h: Digests): Option<Claim> {
    if pred.None? then None else Some(Claim(pred.value.releaseId, pred.value.version, h.payload(pred.value),
                                            pred.value))
  }

  function NextDisposition(previous: Option<Successor>, h: Digests): Disposition {
    if previous.None? then Disposition(1, Active, None, None)
    else Disposition(previous.value.disposition.sequence + 1, Active, None,
                     Some(h.disposition(previous.value.disposition)))
  }

  /** `validate_successor_disposition_transition`. */
  predicate TransitionHolds(previous: Option<Successor>, current: Successor, h: Digests) {
    var d := current.disposition;
    if previous.None? then d.sequence == 1 && d.previousDigest.None?
    else
      var p := previous.value.disposition;
      && d.sequence > p.sequence
      && d.previousDigest == Some(h.disposition(p))
      && (p.at.Some? && d.at.Some? ==> d.at.value >= p.at.value)
      && (previous.value.event.releaseId == current.event.releaseId ==> Rank(d.status) >= Rank(p.status))
  }

  /** `_successor_semantics`. */
  ghost function SuccessorBlock(q: Request, images: seq<Image>, pred: Option<Release>, recorded: Option<Event>,
                                h: Digests): Option<Successor> {
    var event := EventFor(q, images, recorded, h.event);
    if event.None? then None
    else
      var s := Successor(event.value, NextDisposition(Previous(pred), h), ClaimOf(pred, h), q.version);
      if TransitionHolds(Previous(pred), s, h) then Some(s) else None
  }

  // ---------- re-derivation ----------

  /** A disposition that continues the chain: active and undated, one further than the one before and
      linked to its digest, or the first. */
  predicate Continues(d: Disposition, previous: Option<Successor>, h: Digests) {
    && d.status == Active && d.at == None
    && match previous
       case None => d.sequence == 1 && d.previousDigest == None
       case Some(p) =>
         d.sequence == p.disposition.sequence + 1 && d.previousDigest == Some(h.disposition(p.disposition))
  }

  /** A claim that names the predecessor: who it is, what it signed, and all of it. */
  predicate NamesPredecessor(claim: Option<Claim>, pred: Option<Release>, h: Digests) {
    match pred
    case None => claim == None
    case Some(r) =>
      && claim.Some? && claim.value.releaseId == r.releaseId && claim.value.version == r.version
      && claim.value.payloadDigest == h.payload(r) && claim.value.rawIndex == r
  }

  /** A deprecated or withdrawn release has no successor in its own lane. */
  predicate LaneIsOpen(pred: Option<Release>, releaseId: string) {
    Previous(pred).Some? && Previous(pred).value.event.releaseId == releaseId ==>
      Previous(pred).value.disposition.status.Active?
  }

  /** Verification assembles again from the recorded event. The comparison succeeds exactly when
      that event lists its observations once each, in order, under the id they digest to, the rest
      is what the predecessor dictates, and the lane is open. The qualification time of the
      request and the images play no part. */
  lemma {:induction false} RederivationMatches(q: Request, images: seq<Image>, pred: Option<Release>, s: Successor,
                                               h: Digests)
    ensures SuccessorBlock(q, images, pred, Some(s.event), h) == Some(s)
       <==> && UniqueIds(s.event.images) && Increasing(IdList(s.event.images))
            && s.event.eventId == h.event(s.event.(eventId := ""))
            && Continues(s.disposition, Previous(pred), h)
            && NamesPredecessor(s.predecessor, pred, h) && s.boundVersion == q.version
            && LaneIsOpen(pred, s.event.releaseId)
  {
    hide Canonical, UniqueIds, Increasing, IdList;
    CanonicalForm(s.event, h.event);
    if s.disposition == NextDisposition(Previous(pred), h) { OnlyTheLaneCanRefuse(pred, s, h); }
  }

  /** Of the transition's conditions only the status can still fail for a derived disposition. */
  lemma {:induction false} OnlyTheLaneCanRefuse(pred: Option<Release>, s: Successor, h: Digests)
    requires s.disposition == NextDisposition(Previous(pred), h)
    ensures TransitionHolds(Previous(pred), s, h) <==> LaneIsOpen(pred, s.event.releaseId)
  {
  }

  /** What was assembled re-derives identically from its own recorded event. */
  lemma {:induction false} RederivationIsIdentical(q: Request, otherTime: Option<int>, images: seq<Image>,
                                                   pred: Option<Release>, h: Digests)
    ensures var s := SuccessorBlock(q, images, pred, None, h);
            s.Some? ==> SuccessorBlock(q.(qualificationAt := otherTime), images, pred, Some(s.value.event), h) == s
  {
    hide Canonical, TransitionHolds, NextDisposition, AllFreshAt, ObserveAll;
    var s := SuccessorBlock(q, images, pred, None, h);
    if s.Some? {
      var e := NewEvent(q.releaseId, q.version, q.qualificationAt.value, ObserveAll(images));
      assert Canonical(e, h.event) == Some(s.value.event);
      CanonicalNeedsUnique(e, h.event);
      CanonicalIsIdempotent(e, h.event);
    }
  }

  lemma {:induction false} CanonicalNeedsUnique(e: Event, digest: EventDigest)
    ensures Canonical(e, digest).Some? <==> UniqueIds(e.images)
  {
  }

  /** Re-derivation together with the contract's own checks of the event leaves one candidate:
      a verified block is the block an assembly at the recorded time would produce. */
  lemma {:induction false} VerifiedBlockIsAssembled(q: Request, images: seq<Image>, pred: Option<Release>, s: Successor,
                                                    h: Digests)
    requires UniqueImages(images)
    requires SuccessorBlock(q, images, pred, Some(s.event), h) == Some(s)
    requires ContractAccepts(s.event, q.releaseId, q.version, images, h.event)
    ensures SuccessorBlock(q.(qualificationAt := Some(s.event.qualifiedAt)), images, pred, None, h) == Some(s)
  {
    hide Canonical, ContractAccepts, TransitionHolds, NextDisposition, AllFreshAt, ObserveAll, UniqueImages;
    AcceptedEventIsDerived(s.event, q.releaseId, q.version, images, h.event);
  }

  // ---------- assembling one release ----------

  /** One release on top of its predecessor: the assembler's comparison of versions, the block,
      and the contract's comparison when the result is validated. */
  ghost function Assemble(q: Request, images: seq<Image>, pred: Option<Release>, h: Digests): Option<Release> {
    if !IsSemver(q.version) || (pred.Some? && !Follows(pred.value.version, q.version)) then None
    else
      var s := SuccessorBlock(q, images, pred, None, h);
      if s.None? then None else Some(Release(q.releaseId, q.version, s))
  }

  /** When these steps of an assembly succeed, in terms of its inputs alone. */
  lemma {:induction false} AssemblySucceeds(q: Request, images: seq<Image>, pred: Option<Release>, h: Digests)
    ensures Assemble(q, images, pred, h).Some? <==>
      && IsSemver(q.version) && (pred.Some? ==> Follows(pred.value.version, q.version))
      && q.qualificationAt.Some? && AllFreshAt(images, q.qualificationAt.value) && UniqueImages(images)
      && LaneIsOpen(pred, q.releaseId)
  {
    hide IsSemver, Follows, AllFreshAt, Canonical, TransitionHolds, LaneIsOpen;
    UniqueBothWays(images);
    if q.qualificationAt.Some? {
      var e := NewEvent(q.releaseId, q.version, q.qualificationAt.value, ObserveAll(images));
      CanonicalNeedsUnique(e, h.event);
      if UniqueIds(e.images) {
        var event := Canonical(e, h.event).value;
        assert event.releaseId == q.releaseId by { CanonicalKeepsTheRelease(e, h.event); }
        OnlyTheLaneCanRefuse(pred, Successor(event, NextDisposition(Previous(pred), h), ClaimOf(pred, h), q.version),
                             h);
      }
    }
  }

  lemma {:induction false} CanonicalKeepsTheRelease(e: Event, digest: EventDigest)
    ensures Canonical(e, digest).Some? ==> Canonical(e, digest).value.releaseId == e.releaseId
  {
  }

  lemma {:induction false} UniqueBothWays(images: seq<Image>)
    ensures UniqueImages(images) <==> UniqueIds(ObserveAll(images))
  {
    var all := ObserveAll(images);
    assert forall i :: 0 <= i < |images| ==> all[i].imageId == images[i].imageId;
  }

  // ---------- the chain ----------

  datatype Step = Step(request: Request, images: seq<Image>)

  /** Each release after the first was assembled on the one before it. */
  ghost predicate IsChain(rs: seq<Release>, steps: seq<Step>, h: Digests) {
    && |rs| == |steps| + 1
    && forall i :: 0 <= i < |steps| ==> Assemble(steps[i].request, steps[i].images, Some(rs[i]), h) == Some(rs[i + 1])
  }

  lemma {:induction false} ChainLink(rs: seq<Release>, steps: seq<Step>, h: Digests, i: nat)
    requires IsChain(rs, steps, h) && i < |steps|
    ensures |rs| == |steps| + 1 && Follows(rs[i].version, rs[i + 1].version)
    ensures rs[i + 1].successor.Some?
    ensures Continues(rs[i + 1].successor.value.disposition, rs[i].successor, h)
    ensures NamesPredecessor(rs[i + 1].successor.value.predecessor, Some(rs[i]), h)
  {
    hide Follows, IsSemver, EventFor, TransitionHolds;
    assert Assemble(steps[i].request, steps[i].images, Some(rs[i]), h) == Some(rs[i + 1]);
  }

  /** Along every chain later releases follow earlier ones in both version orders, so no version
      repeats and no line of predecessors closes into a cycle. */
  lemma {:induction false} ChainIsOrdered(rs: seq<Release>, steps: seq<Step>, h: Digests, i: nat, j: nat)
    requires IsChain(rs, steps, h) && |rs| == |steps| + 1 && i < j < |rs|
    ensures Follows(rs[i].version, rs[j].version) && rs[i].version != rs[j].version
  {
    hide Follows, IsChain;
    ChainLink(rs, steps, h, j - 1);
    if i < j - 1 {
      ChainIsOrdered(rs, steps, h, i, j - 1);
      FollowsIsTransitive(rs[i].version, rs[j - 1].version, rs[j].version);
    } else {
      FollowsIsStrict(rs[i].version);
    }
  }

  lemma {:induction false} FollowsIsStrict(v: string)
    ensures !Follows(v, v)
  {
    hide KeyOf, PrecedenceOf, IsSemver, Less, Precedes;
    if PrecedenceOf(v).Some? {
      var p := PrecedenceOf(v).value;
      PrecedesIsStrictOrder(p, p, p);
    }
  }

  /** The sequence number of a release; a legacy one counts as none. */
  function SequenceOf(r: Release): int {
    if r.successor.Some? then r.successor.value.disposition.sequence else 0
  }

  /** Sequence numbers are consecutive: n releases further on, n more. After a legacy release
      the numbering starts at one. */
  lemma {:induction false} ChainIsConsecutive(rs: seq<Release>, steps: seq<Step>, h: Digests, j: nat)
    requires IsChain(rs, steps, h) && |rs| == |steps| + 1 && j < |rs|
    ensures j > 0 ==> rs[j].successor.Some?
    ensures rs[j].successor.Some? ==> SequenceOf(rs[j]) == SequenceOf(rs[0]) + j
  {
    hide IsChain, Follows;
    if j > 0 {
      ChainIsConsecutive(rs, steps, h, j - 1);
      ChainLink(rs, steps, h, j - 1);
    }
  }

  /** The last release determines the whole chain behind it: two chains that end in the same release
      agree, release by release, as far back as both go. */
  lemma {:induction false} ChainIsDetermined(rs: seq<Release>, steps: seq<Step>, ts: seq<Release>, other: seq<Step>,
                                             h: Digests, back: nat)
    requires IsChain(rs, steps, h) && IsChain(ts, other, h) && |rs| == |steps| + 1 && |ts| == |other| + 1
    requires back < |rs| && back < |ts| && rs[|rs| - 1] == ts[|ts| - 1]
    ensures rs[|rs| - 1 - back] == ts[|ts| - 1 - back]
  {
    hide IsChain, Follows;
    if back > 0 {
      ChainIsDetermined(rs, steps, ts, other, h, back - 1);
      ChainLink(rs, steps, h, |rs| - 1 - back);
      ChainLink(ts, other, h, |ts| - 1 - back);
    }
  }

  // ---------- what the contract lets a disposition become ----------

  /** Blocks of which each is an allowed transition from the one before. */
  ghost predicate AreTransitions(ss: seq<Successor>, h: Digests) {
    forall i :: 0 <= i < |ss| - 1 ==> TransitionHolds(Some(ss[i]), ss[i + 1], h)
  }

  /** A first block starts the sequence at one and links to nothing. Any other has a higher number and the
      digest of the one before, is not dated before it where both are dated, and within a lane may
      deprecate an active release and withdraw either, but never take that back. */
  lemma TransitionIsExact(previous: Option<Successor>, current: Successor, h: Digests)
    ensures TransitionHolds(previous, current, h) <==>
      var d := current.disposition;
      match previous
      case None => d.sequence == 1 && d.previousDigest == None
      case Some(before) =>
        var p := before.disposition;
        && d.sequence > p.sequence && d.previousDigest == Some(h.disposition(p))
        && (p.at == None || d.at == None || p.at.value <= d.at.value)
        && ( || before.event.releaseId != current.event.releaseId || p.status == Active || d.status == Withdrawn
             || (p.status == Deprecated && d.status == Deprecated))
  {
  }

  /** Over any number of transitions the sequence increases, each block is linked to the digest of the
      one before, within one lane a status is never taken back, and dates that are all given do not go
      back. */
  lemma {:induction false} TransitionsNeverRegress(ss: seq<Successor>, h: Digests, i: nat, j: nat)
    requires AreTransitions(ss, h) && i < j < |ss|
    ensures ss[i].disposition.sequence < ss[j].disposition.sequence
    ensures ss[j].disposition.previousDigest == Some(h.disposition(ss[j - 1].disposition))
    ensures (forall k :: i <= k <= j ==> ss[k].event.releaseId == ss[i].event.releaseId) ==>
      && (ss[i].disposition.status == Withdrawn ==> ss[j].disposition.status == Withdrawn)
      && (ss[i].disposition.status == Deprecated ==> ss[j].disposition.status != Active)
    ensures (forall k :: i <= k <= j ==> ss[k].disposition.at.Some?) ==>
      ss[i].disposition.at.value <= ss[j].disposition.at.value
  {
    assert TransitionHolds(Some(ss[j - 1]), ss[j - 1 + 1], h);
    if i < j - 1 { TransitionsNeverRegress(ss, h, i, j - 1); }
  }

  /** A block without a date in between lets the dates go back: each comparison is between neighbours. */
  lemma {:induction false} DatesCanRegress(e: Event, h: Digests)
    ensures var a := Disposition(1, Active, Some(2), None);
            var b := Disposition(2, Active, None, Some(h.disposition(a)));
            var c := Disposition(3, Active, Some(1), Some(h.disposition(b)));
            AreTransitions([Successor(e, a, None, ""), Successor(e, b, None, ""), Successor(e, c, None, "")], h)
  {
  }
}
