/** Qualification events: how the assembler canonicalises them
    (scripts/assemble_release_index.py) and what the release contract demands of one
    (packages/release-contracts/src/stateport_release/contract.py). */
module QualificationEvent {
  import opened Text
  import F = Freshness

  datatype Observation = Observation(imageId: string, digest: string, databaseBuiltAt: int, scannedAt: int)

  datatype Event = Event(formatVersion: string, releaseId: string, version: string, qualifiedAt: int, result: string,
                         freshnessBasis: string, images: seq<Observation>, eventId: string)

  const FORMAT := "stateport.release-qualification/v1"
  const QUALIFIED := "qualified"
  const BASIS := "scan-and-database-checked-at-qualification"

  /** The canonical digest of an event, applied to one without its id; any function will do. */
  type EventDigest = Event -> string

  function IdList(images: seq<Observation>): (r: seq<string>)
    ensures |r| == |images| && forall i :: 0 <= i < |r| ==> r[i] == images[i].imageId
  {
    if images == [] then [] else [images[0].imageId] + IdList(images[1..])
  }

  function Ids(images: seq<Observation>): set<string> {
    set o | o in images :: o.imageId
  }

  ghost predicate UniqueIds(images: seq<Observation>) {
    forall i, j :: 0 <= i < j < |images| ==> images[i].imageId != images[j].imageId
  }

  /** The first observation of one image. */
  function Find(images: seq<Observation>, id: string): (o: Observation)
    requires id in Ids(images)
    ensures o in images && o.imageId == id
  {
    if images[0].imageId == id then images[0] else Find(images[1..], id)
  }

  function Pick(images: seq<Observation>, ids: seq<string>): (r: seq<Observation>)
    requires forall id :: id in ids ==> id in Ids(images)
    ensures |r| == |ids| && forall i :: 0 <= i < |r| ==> r[i] == Find(images, ids[i])
  {
    if ids == [] then [] else [Find(images, ids[0])] + Pick(images, ids[1..])
  }

  /** Observations with unique ids, sorted by id. */
  function ById(images: seq<Observation>): seq<Observation> {
    Pick(images, Sorted(Ids(images)))
  }

  /** `_canonicalize_qualification_event`. */
  ghost function Canonical(e: Event, digest: EventDigest): Option<Event> {
    if !UniqueIds(e.images) then None
    else
      var images := ById(e.images);
      Some(e.(images := images, eventId := digest(e.(images := images, eventId := ""))))
  }

  lemma {:induction false} UniqueFind(images: seq<Observation>, o: Observation)
    requires UniqueIds(images) && o in images
    ensures o.imageId in Ids(images) && Find(images, o.imageId) == o
  {
  }

  /** Sorting keeps the observations: same members, same ids, in increasing order of id. */
  lemma ByIdKeepsMembers(images: seq<Observation>)
    requires UniqueIds(images)
    ensures forall o :: o in ById(images) <==> o in images
    ensures UniqueIds(ById(images)) && Increasing(IdList(ById(images)))
  {
    hide Le, Find;
    var ids, r := Sorted(Ids(images)), ById(images);
    forall o ensures o in r <==> o in images {
      if o in images {
        UniqueFind(images, o);
        var k :| 0 <= k < |ids| && ids[k] == o.imageId;
        assert r[k] == o;
      }
      if o in r { var k :| 0 <= k < |r| && r[k] == o; }
    }
    assert IdList(r) == ids;
    forall i, j | 0 <= i < j < |r| ensures r[i].imageId != r[j].imageId {
      assert Lt(ids[i], ids[j]);
    }
  }

  /** The sorted form depends only on which observations there are. */
  lemma ByIdIsUnique(a: seq<Observation>, b: seq<Observation>)
    requires UniqueIds(a) && UniqueIds(b) && forall o :: o in a <==> o in b
    ensures ById(a) == ById(b)
  {
    hide Le, Find;
    assert Ids(a) == Ids(b);
    var ids := Sorted(Ids(a));
    forall i | 0 <= i < |ids| ensures Find(a, ids[i]) == Find(b, ids[i]) {
      UniqueFind(b, Find(a, ids[i]));
    }
  }

  /** Observations already in increasing order of id are left as they are. */
  lemma {:induction false} ByIdOfIncreasing(images: seq<Observation>)
    requires UniqueIds(images) && Increasing(IdList(images))
    ensures ById(images) == images
  {
    hide Le, Find;
    var ids := Sorted(Ids(images));
    var list := IdList(images);
    forall x ensures x in ids <==> x in list {
      if x in ids {
        var o :| o in images && o.imageId == x;
        var k :| 0 <= k < |images| && images[k] == o;
        assert list[k] == x;
      }
      if x in list { var k :| 0 <= k < |list| && list[k] == x; assert images[k] in images; }
    }
    IncreasingUnique(ids, list);
    forall i | 0 <= i < |images| ensures ById(images)[i] == images[i] {
      UniqueFind(images, images[i]);
    }
  }

  /** Canonicalisation is idempotent: a recorded event canonicalises to itself. */
  lemma CanonicalIsIdempotent(e: Event, digest: EventDigest)
    requires UniqueIds(e.images)
    ensures Canonical(e, digest).Some? && Canonical(Canonical(e, digest).value, digest) == Canonical(e, digest)
  {
    hide ById, Ids, Increasing;
    ByIdKeepsMembers(e.images);
    ByIdIsUnique(ById(e.images), e.images);
  }

  /** The events in canonical form: observations listed once each in increasing order of id, and
      the id that the rest digests to. */
  lemma {:induction false} CanonicalForm(e: Event, digest: EventDigest)
    ensures Canonical(e, digest) == Some(e) <==>
      UniqueIds(e.images) && Increasing(IdList(e.images)) && e.eventId == digest(e.(eventId := ""))
  {
    hide ById, Ids, Increasing, IdList;
    if UniqueIds(e.images) {
      ByIdKeepsMembers(e.images);
      if Increasing(IdList(e.images)) { ByIdOfIncreasing(e.images); }
    }
  }

  /** Canonicalisation does not depend on the order of the observations. */
  lemma CanonicalIgnoresOrder(e: Event, images: seq<Observation>, id: string, digest: EventDigest)
    requires multiset(images) == multiset(e.images)
    ensures Canonical(e.(images := images, eventId := id), digest) == Canonical(e, digest)
  {
    hide ById, Ids;
    assert forall o :: o in images <==> o in e.images by {
      forall o ensures o in images <==> o in e.images {
        assert o in images <==> o in multiset(images);
        assert o in e.images <==> o in multiset(e.images);
      }
    }
    if UniqueIds(images) { SameMultisetUnique(images, e.images); }
    if UniqueIds(e.images) {
      SameMultisetUnique(e.images, images);
      ByIdIsUnique(images, e.images);
    }
  }

  lemma SameMultisetUnique(a: seq<Observation>, b: seq<Observation>)
    requires multiset(a) == multiset(b) && UniqueIds(a)
    ensures UniqueIds(b)
  {
    forall i, j | 0 <= i < j < |b| ensures b[i].imageId != b[j].imageId {
      var x, y := b[i], b[j];
      if x.imageId == y.imageId {
        assert x in multiset(b) && y in multiset(b);
        var m :| 0 <= m < |a| && a[m] == x;
        var n :| 0 <= n < |a| && a[n] == y;
        assert x == y;
        TwiceMeansTwo(b, i, j);
        OnceMeansOne(a, m);
        assert false;
      }
    }
  }

  lemma TwiceMeansTwo(b: seq<Observation>, i: nat, j: nat)
    requires i < j < |b| && b[i] == b[j]
    ensures multiset(b)[b[i]] >= 2
  {
    assert b == b[..j] + b[j..];
    assert b[i] == b[..j][i] && b[i] in multiset(b[..j]);
    assert b[j..][0] == b[j] && b[j] in multiset(b[j..]);
    assert multiset(b) == multiset(b[..j]) + multiset(b[j..]);
  }

  lemma OnceMeansOne(a: seq<Observation>, m: nat)
    requires UniqueIds(a) && m < |a|
    ensures multiset(a)[a[m]] == 1
  {
    var x := a[m];
    assert a == a[..m] + [x] + a[m + 1..];
    assert x !in a[..m] && x !in a[m + 1..];
    assert multiset(a) == multiset(a[..m]) + multiset{x} + multiset(a[m + 1..]);
  }

  // ---------- the event of an assembly ----------

  datatype Image = Image(imageId: string, digest: string, scan: F.Scan)

  datatype Request = Request(releaseId: string, version: string, qualificationAt: Option<int>)

  function Observe(image: Image): Observation {
    Observation(image.imageId, image.digest, image.scan.databaseBuiltAt, image.scan.scannedAt)
  }

  function ObserveAll(images: seq<Image>): (r: seq<Observation>)
    ensures |r| == |images| && forall i :: 0 <= i < |r| ==> r[i] == Observe(images[i])
  {
    if images == [] then [] else [Observe(images[0])] + ObserveAll(images[1..])
  }

  predicate AllFreshAt(images: seq<Image>, t: int) {
    forall i :: 0 <= i < |images| ==> F.FreshAt(images[i].scan, t)
  }

  function NewEvent(releaseId: string, version: string, qualifiedAt: int, images: seq<Observation>): Event {
    Event(FORMAT, releaseId, version, qualifiedAt, QUALIFIED, BASIS, images, "")
  }

  /** The event a request leads to: the recorded one, or a new one checked for freshness. */
  ghost function EventFor(q: Request, images: seq<Image>, recorded: Option<Event>, digest: EventDigest): Option<Event> {
    if recorded.Some? then Canonical(recorded.value, digest)
    else if q.qualificationAt.None? || !AllFreshAt(images, q.qualificationAt.value) then None
    else Canonical(NewEvent(q.releaseId, q.version, q.qualificationAt.value, ObserveAll(images)), digest)
  }

  // ---------- the contract's view of an event ----------

  predicate UniqueImages(images: seq<Image>) {
    forall i, j :: 0 <= i < j < |images| ==> images[i].imageId != images[j].imageId
  }

  /** What the contract checks of one observation against the image it names. */
  predicate IsBound(o: Observation, image: Image, qualifiedAt: int) {
    && o.digest == image.digest
    && o.databaseBuiltAt <= qualifiedAt && o.scannedAt <= qualifiedAt
    && qualifiedAt - o.databaseBuiltAt <= image.scan.maxDatabaseHours * F.HOUR
    && qualifiedAt - o.scannedAt <= image.scan.maxScanHours * F.HOUR
    && o.databaseBuiltAt == image.scan.databaseBuiltAt && o.scannedAt == image.scan.scannedAt
  }

  /** The event part of `_validate_successor_fields` and the constants its schema fixes, for images
      with unique ids. */
  ghost predicate ContractAccepts(e: Event, releaseId: string, version: string, images: seq<Image>,
                                  digest: EventDigest) {
    && e.formatVersion == FORMAT && e.result == QUALIFIED && e.freshnessBasis == BASIS
    && e.releaseId == releaseId && e.version == version
    && e.eventId == digest(e.(eventId := ""))
    && UniqueIds(e.images) && Increasing(IdList(e.images))
    && Ids(e.images) == Ids(ObserveAll(images))
    && forall o, image :: o in e.images && image in images && o.imageId == image.imageId ==>
         IsBound(o, image, e.qualifiedAt)
  }

  lemma {:induction false} UniqueImagesObserve(images: seq<Image>)
    requires UniqueImages(images)
    ensures UniqueIds(ObserveAll(images))
  {
  }

  /** The observations the contract accepts are the observations of the images. */
  lemma {:induction false} AcceptedObservations(e: Event, images: seq<Image>)
    requires UniqueImages(images) && Ids(e.images) == Ids(ObserveAll(images)) && UniqueIds(e.images)
    requires forall o, image :: o in e.images && image in images && o.imageId == image.imageId ==>
      IsBound(o, image, e.qualifiedAt)
    ensures forall o :: o in e.images <==> o in ObserveAll(images)
    ensures AllFreshAt(images, e.qualifiedAt)
  {
    hide Increasing;
    var all := ObserveAll(images);
    forall o | o in e.images ensures o in all {
      assert o.imageId in Ids(all);
      var p :| p in all && p.imageId == o.imageId;
      var k :| 0 <= k < |all| && all[k] == p;
      assert IsBound(o, images[k], e.qualifiedAt);
    }
    forall k | 0 <= k < |images| ensures all[k] in e.images && F.FreshAt(images[k].scan, e.qualifiedAt) {
      assert all[k] in all && all[k].imageId in Ids(e.images);
      var o :| o in e.images && o.imageId == all[k].imageId;
      assert IsBound(o, images[k], e.qualifiedAt);
    }
  }

  /** The contract's checks pin the event down completely: it accepts exactly the events that
      an assembly at the recorded time would produce from the same images. */
  lemma AcceptedEventIsDerived(e: Event, releaseId: string, version: string, images: seq<Image>, digest: EventDigest)
    requires UniqueImages(images)
    ensures ContractAccepts(e, releaseId, version, images, digest)
       <==> EventFor(Request(releaseId, version, Some(e.qualifiedAt)), images, None, digest) == Some(e)
  {
    var all := ObserveAll(images);
    UniqueImagesObserve(images);
    if ContractAccepts(e, releaseId, version, images, digest) {
      AcceptedObservations(e, images);
      ByIdIsUnique(e.images, all);
      ByIdOfIncreasing(e.images);
    }
    if EventFor(Request(releaseId, version, Some(e.qualifiedAt)), images, None, digest) == Some(e) {
      DerivedIsAccepted(e, releaseId, version, images, digest);
    }
  }

  lemma DerivedIsAccepted(e: Event, releaseId: string, version: string, images: seq<Image>, digest: EventDigest)
    requires UniqueImages(images)
    requires EventFor(Request(releaseId, version, Some(e.qualifiedAt)), images, None, digest) == Some(e)
    ensures ContractAccepts(e, releaseId, version, images, digest)
  {
    hide ById, Increasing;
    var all := ObserveAll(images);
    UniqueImagesObserve(images);
    ByIdKeepsMembers(all);
    assert e.images == ById(all);
    forall o, image | o in e.images && image in images && o.imageId == image.imageId
      ensures IsBound(o, image, e.qualifiedAt)
    {
      var k :| 0 <= k < |all| && all[k] == o;
      var m :| 0 <= m < |images| && images[m] == image;
      assert k == m;
    }
  }

  // ---------- the event spelled out ----------

  /** The same event with its observations in order of id and with the id of the result. */
  ghost predicate IsCanonicalOf(e: Event, r: Event, digest: EventDigest) {
    && e == r.(images := e.images, eventId := e.eventId) && e.eventId == digest(e.(eventId := ""))
    && UniqueIds(r.images) && Increasing(IdList(e.images)) && forall o :: o in e.images <==> o in r.images
  }

  lemma CanonicalIsExact(e: Event, r: Event, digest: EventDigest)
    ensures Canonical(r, digest) == Some(e) <==> IsCanonicalOf(e, r, digest)
  {
    hide ById, Ids, Increasing, IdList;
    if UniqueIds(r.images) { ByIdKeepsMembers(r.images); }
    if IsCanonicalOf(e, r, digest) {
      IncreasingIsUnique(e.images);
      ByIdIsUnique(e.images, r.images);
      ByIdOfIncreasing(e.images);
    }
  }

  lemma {:induction false} IncreasingIsUnique(images: seq<Observation>)
    requires Increasing(IdList(images))
    ensures UniqueIds(images)
  {
    hide Le;
    forall i, j | 0 <= i < j < |images| ensures images[i].imageId != images[j].imageId {
      assert Lt(IdList(images)[i], IdList(images)[j]);
    }
  }

  ghost predicate IsObserved(images: seq<Image>, o: Observation) {
    exists i :: 0 <= i < |images| && o.imageId == images[i].imageId && o.digest == images[i].digest
                && o.databaseBuiltAt == images[i].scan.databaseBuiltAt && o.scannedAt == images[i].scan.scannedAt
  }

  /** The new event of a qualification at a time: qualified on scans fresh at that time, with one
      observation of each image in order of id. */
  ghost predicate IsNewEvent(e: Event, q: Request, images: seq<Image>, digest: EventDigest) {
    && q.qualificationAt == Some(e.qualifiedAt) && e.releaseId == q.releaseId && e.version == q.version
    && e.formatVersion == "stateport.release-qualification/v1" && e.result == "qualified"
    && e.freshnessBasis == "scan-and-database-checked-at-qualification"
    && (forall i :: 0 <= i < |images| ==> F.FreshAt(images[i].scan, e.qualifiedAt))
    && UniqueImages(images) && Increasing(IdList(e.images)) && (forall o :: o in e.images <==> IsObserved(images, o))
    && e.eventId == digest(e.(eventId := ""))
  }

  lemma {:induction false} ObservedMeans(images: seq<Image>)
    ensures forall o :: o in ObserveAll(images) <==> IsObserved(images, o)
    ensures UniqueIds(ObserveAll(images)) <==> UniqueImages(images)
  {
    var all := ObserveAll(images);
    forall o | IsObserved(images, o) ensures o in all {
      var i :| 0 <= i < |images| && o == Observe(images[i]);
      assert all[i] == o;
    }
    assert forall i :: 0 <= i < |images| ==> all[i].imageId == images[i].imageId;
  }

  /** A recorded event is used in its canonical form whatever the request says; without one, the
      event is the new one, and there is none unless every scan is fresh. */
  lemma EventIsExact(q: Request, images: seq<Image>, recorded: Option<Event>, e: Event, digest: EventDigest)
    ensures EventFor(q, images, recorded, digest) == Some(e) <==>
      if recorded.Some? then IsCanonicalOf(e, recorded.value, digest) else IsNewEvent(e, q, images, digest)
  {
    hide Canonical, Increasing, IdList, UniqueIds, UniqueImages, IsObserved;
    if recorded.Some? {
      CanonicalIsExact(e, recorded.value, digest);
    } else if q.qualificationAt.Some? {
      ObservedMeans(images);
      CanonicalIsExact(e, NewEvent(q.releaseId, q.version, q.qualificationAt.value, ObserveAll(images)), digest);
    }
  }
}
