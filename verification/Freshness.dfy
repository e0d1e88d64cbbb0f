/** Database and scan freshness through the release pipeline: the collector's classification
    (scripts/collect_release_evidence.py) and the checks the assembler and the signer make of it
    (scripts/assemble_release_index.py). Instants are integer microseconds. */
module Freshness {
  import opened Text

  const SECOND: int := 1_000_000
  const MINUTE: int := 60_000_000
  const HOUR: int := 3_600_000_000

  /** A timestamp written to whole seconds. */
  function Stamp(t: int): (s: int)
    ensures s <= t < s + SECOND && s % SECOND == 0
  {
    t - t % SECOND
  }

  function Hours(d: int): real {
    d as real / HOUR as real
  }

  /** Python's round to an integer: ties go to the even neighbour. */
  function Nearest(x: real): (n: int)
    ensures n as real - 0.5 <= x <= n as real + 0.5
    ensures n as real - 0.5 == x || x == n as real + 0.5 ==> n % 2 == 0
  {
    var f := x.Floor;
    var d := x - f as real;
    if d < 0.5 then f else if d > 0.5 then f + 1 else if f % 2 == 0 then f else f + 1
  }

  /** `round(x, 4)`. */
  function Round4(x: real): (r: real)
    ensures -0.00005 <= r - x <= 0.00005
  {
    Nearest(x * 10000.0) as real / 10000.0
  }

  // ---------- the collector ----------

  datatype Limits = Limits(maxHours: int, latestMaxHours: int, checkMaxMinutes: int, minRemainingHours: int,
                           maxScanHours: int)

  predicate SaneLimits(l: Limits) {
    0 < l.minRemainingHours < l.maxHours < l.latestMaxHours && l.checkMaxMinutes > 0
  }

  datatype Meaning = UpToDate | NewerAvailable | CheckFailed

  function MeaningOf(exitCode: int): Meaning {
    if exitCode == 0 then UpToDate else if exitCode == 1 then NewerAvailable else CheckFailed
  }

  datatype Check = Check(exitCode: int, meaning: Meaning, observedAt: int)

  datatype Class = Fresh | LatestAvailableGrace

  datatype Database = Database(valid: bool, builtAt: int, observedAt: int, ageHours: real, maxHours: int,
                               latestMaxHours: int,
                               checkMaxMinutes: int, freshness: Class, check: Option<Check>, updateAttempted: bool)

  /** `grype_database_status`: the record of a database built at `built` and looked at now, or a
      refusal. */
  function Status(valid: bool, built: int, now: int, check: Option<Check>, l: Limits): Option<Database> {
    var age := now - built;
    if !SaneLimits(l) || !valid || age < 0 || age > l.latestMaxHours * HOUR then None
    else if age <= l.maxHours * HOUR then
      Some(Database(true, Stamp(built), Stamp(now), Round4(Hours(age)), l.maxHours, l.latestMaxHours, l.checkMaxMinutes,
                    Fresh, check, true))
    else if check.Some? && check.value.exitCode == 0 && check.value.meaning == UpToDate
            && 0 <= now - check.value.observedAt <= l.checkMaxMinutes * MINUTE then
      Some(Database(true, Stamp(built), Stamp(now), Round4(Hours(age)), l.maxHours, l.latestMaxHours, l.checkMaxMinutes,
                    LatestAvailableGrace, check, true))
    else None
  }

  /** `refresh_grype_database`: the check is made after the update and before the status. */
  function Refresh(valid: bool, built: int, checkedAt: int, exitCode: int, now: int, l: Limits): Option<Database> {
    Status(valid, built, now, Some(Check(exitCode, MeaningOf(exitCode), Stamp(checkedAt))), l)
  }

  // ---------- the assembler ----------

  predicate CloseTo(a: real, b: real, tolerance: real) {
    -tolerance <= a - b <= tolerance
  }

  /** `_validate_grype_database_proof` on whole-second times. */
  predicate ProofHolds(d: Database, scannedAt: int, l: Limits) {
    var age := d.observedAt - d.builtAt;
    && d.valid && d.updateAttempted
    && d.maxHours == l.maxHours && d.latestMaxHours == l.latestMaxHours && d.checkMaxMinutes == l.checkMaxMinutes
    && d.builtAt <= d.observedAt <= scannedAt
    && CloseTo(d.ageHours, Round4(Hours(age)), 0.001)
    && 0 <= age <= l.latestMaxHours * HOUR
    && d.check.Some? && d.check.value.meaning == MeaningOf(d.check.value.exitCode)
    && d.check.value.observedAt <= d.observedAt
    && if d.freshness.LatestAvailableGrace? then
         age > l.maxHours * HOUR && d.check.value.exitCode == 0
         && d.observedAt - d.check.value.observedAt <= l.checkMaxMinutes * MINUTE
       else age <= l.maxHours * HOUR
  }

  /** The two ages are measured apart, one exactly and one from whole seconds, each rounded to
      four places; they always differ by less than the tolerance. */
  lemma AgesAgree(built: int, now: int)
    ensures var a, b := Round4(Hours(now - built)), Round4(Hours(Stamp(now) - Stamp(built)));
            a - b < 0.001 && b - a < 0.001
  {
    var exact, whole := now - built, Stamp(now) - Stamp(built);
    assert -SECOND < exact - whole < SECOND;
    assert Hours(exact) - Hours(whole) == Hours(exact - whole);
    assert -0.0003 < Hours(exact - whole) < 0.0003;
  }

  /** Whole-second ages cannot cross a whole-hour bound upwards. */
  lemma StampedAgeStaysBelow(built: int, now: int, hours: int)
    requires now - built <= hours * HOUR
    ensures Stamp(now) - Stamp(built) <= hours * HOUR
  {
    var s, bound := Stamp(now) - Stamp(built), hours * HOUR;
    assert s < bound + SECOND;
    assert bound == (hours * 3600) * SECOND;
    var m, n := now / SECOND, built / SECOND;
    assert Stamp(now) == m * SECOND && Stamp(built) == n * SECOND;
    assert s == (m - n) * SECOND;
  }

  lemma StampIsMonotone(a: int, b: int)
    requires a <= b
    ensures Stamp(a) <= Stamp(b)
  {
  }

  /** What a record says of a database: times cut to whole seconds, the age to four places, and the
      limits and the check it was judged by. */
  predicate Records(d: Database, built: int, now: int, check: Option<Check>, l: Limits) {
    && d.valid && d.updateAttempted && d.check == check
    && d.builtAt % 1_000_000 == 0 && 0 <= built - d.builtAt < 1_000_000
    && d.observedAt % 1_000_000 == 0 && 0 <= now - d.observedAt < 1_000_000
    && -0.00005 <= d.ageHours - (now - built) as real / 3_600_000_000.0 <= 0.00005
    && d.maxHours == l.maxHours && d.latestMaxHours == l.latestMaxHours && d.checkMaxMinutes == l.checkMaxMinutes
  }

  /** When a database is recorded, exactly: as fresh up to the normal maximum of its age; past it and up to
      the latest maximum as grace, if a check that is recent enough found nothing newer; never when it is
      invalid, from the future, older, or the limits make no sense. */
  lemma {:induction false} StatusIsExact(valid: bool, built: int, now: int, check: Option<Check>, l: Limits)
    ensures var r, age := Status(valid, built, now, check, l), now - built;
            var usable := && valid && 0 < l.minRemainingHours < l.maxHours < l.latestMaxHours && l.checkMaxMinutes > 0;
            && (r.Some? && r.value.freshness.Fresh? <==> usable && 0 <= age <= l.maxHours * 3_600_000_000)
            && (r.Some? && r.value.freshness.LatestAvailableGrace? <==>
                  && usable && l.maxHours * 3_600_000_000 < age <= l.latestMaxHours * 3_600_000_000
                  && check.Some? && check.value.exitCode == 0 && check.value.meaning == UpToDate
                  && 0 <= now - check.value.observedAt <= l.checkMaxMinutes * 60_000_000)
            && (r.Some? ==> Records(r.value, built, now, check, l))
  {
    hide Round4;
    assert l.maxHours * HOUR >= 0 || !SaneLimits(l);
  }

  /** A refresh records a database as grace only if the tool exited with 0, and records what each
      exit code means. */
  lemma {:induction false} RefreshIsExact(valid: bool, built: int, checkedAt: int, exitCode: int, now: int, l: Limits)
    ensures var r, age := Refresh(valid, built, checkedAt, exitCode, now, l), now - built;
            && (r.Some? <==>
                  && valid && 0 < l.minRemainingHours < l.maxHours < l.latestMaxHours && l.checkMaxMinutes > 0
                  && 0 <= age <= l.latestMaxHours * 3_600_000_000
                  && (age <= l.maxHours * 3_600_000_000
                      || (exitCode == 0 && 0 <= now - Stamp(checkedAt) <= l.checkMaxMinutes * 60_000_000)))
            && (r.Some? ==> r.value.check.Some? && r.value.check.value.exitCode == exitCode
                            && (r.value.check.value.meaning == UpToDate <==> exitCode == 0)
                            && (r.value.check.value.meaning == NewerAvailable <==> exitCode == 1)
                            && (r.value.check.value.meaning == CheckFailed <==> exitCode !in {0, 1}))
  {
    hide Status, Stamp, Round4;
    StatusIsExact(valid, built, now, Some(Check(exitCode, MeaningOf(exitCode), Stamp(checkedAt))), l);
    assert l.maxHours < l.latestMaxHours ==> l.maxHours * 3_600_000_000 < l.latestMaxHours * 3_600_000_000;
  }

  /** The two ends agree on every record with whole-second times: the assembler accepts it if and only if
      it is, but for the rounding of its age, the record the collector would make of those times and that
      check, the check is there and read correctly, and nothing was observed after the scan. */
  lemma {:induction false} ProofMeansRecord(d: Database, scannedAt: int, l: Limits)
    requires SaneLimits(l) && d.builtAt % SECOND == 0 && d.observedAt % SECOND == 0
    ensures var r := Status(d.valid, d.builtAt, d.observedAt, d.check, l);
            ProofHolds(d, scannedAt, l) <==>
              && d.observedAt <= scannedAt
              && d.check.Some? && d.check.value.meaning == MeaningOf(d.check.value.exitCode)
              && d.check.value.observedAt <= d.observedAt
              && r.Some? && d == r.value.(ageHours := d.ageHours) && -0.001 <= d.ageHours - r.value.ageHours <= 0.001
  {
    hide Round4, Hours;
    assert Stamp(d.builtAt) == d.builtAt && Stamp(d.observedAt) == d.observedAt;
    assert l.maxHours * HOUR <= l.latestMaxHours * HOUR;
  }

  /** What the assembler makes of every record the collector can produce: it accepts all of them
      except one second's worth, a grace record whose whole-second age is exactly the bound. */
  lemma ProofAcceptance(valid: bool, built: int, checkedAt: int, exitCode: int, now: int, scanned: int, l: Limits)
    requires checkedAt <= now <= scanned
    requires Refresh(valid, built, checkedAt, exitCode, now, l).Some?
    ensures var d := Refresh(valid, built, checkedAt, exitCode, now, l).value;
            ProofHolds(d, Stamp(scanned), l) <==> d.freshness.Fresh? || Stamp(now) - Stamp(built) > l.maxHours * HOUR
  {
    hide Round4, Hours;
    AgesAgree(built, now);
    StampIsMonotone(built, now);
    StampIsMonotone(checkedAt, now);
    StampIsMonotone(now, scanned);
    StampedAgeStaysBelow(built, now, l.latestMaxHours);
    if now - built <= l.maxHours * HOUR { StampedAgeStaysBelow(built, now, l.maxHours); }
  }

  /** That second exists: a database half a second past its bound, seen at a fraction of a
      second, is recorded as grace and then refused as needlessly so. */
  lemma GraceRecordCanBeRefused(l: Limits)
    requires SaneLimits(l)
    ensures var now := l.maxHours * HOUR + 500_000;
            var d := Refresh(true, 0, now, 0, now, l);
            d.Some? && d.value.freshness.LatestAvailableGrace? && !ProofHolds(d.value, Stamp(now), l)
  {
    hide Round4, Hours, Stamp;
    var k := l.maxHours * 3600;
    var now := l.maxHours * HOUR + 500_000;
    assert now == k * SECOND + 500_000;
    StampOf(k, 500_000);
    StampOf(0, 0);
    assert l.latestMaxHours * HOUR >= (l.maxHours + 1) * HOUR;
    assert l.checkMaxMinutes * MINUTE >= MINUTE;
  }

  lemma StampOf(k: int, f: int)
    requires 0 <= f < SECOND
    ensures Stamp(k * SECOND + f) == k * SECOND
  {
    assert (k * SECOND + f) % SECOND == f;
  }

  // ---------- the index ----------

  /** The scan block of one image in the release index. */
  datatype Scan = Scan(databaseBuiltAt: int, scannedAt: int, maxDatabaseHours: int, maxScanHours: int)

  function ScanBlock(d: Database, scannedAt: int, l: Limits): Scan {
    Scan(d.builtAt, scannedAt, l.maxHours, l.maxScanHours)
  }

  predicate FreshAt(s: Scan, t: int) {
    && s.databaseBuiltAt <= t && s.scannedAt <= t
    && t - s.databaseBuiltAt <= s.maxDatabaseHours * HOUR
    && t - s.scannedAt <= s.maxScanHours * HOUR
  }

  /** `_check_scan_freshness_at`. */
  method CheckScanFreshness(images: seq<Scan>, t: int) returns (ok: bool)
    ensures ok <==> forall i :: 0 <= i < |images| ==> FreshAt(images[i], t)
  {
    for i := 0 to |images|
      invariant forall j :: 0 <= j < i ==> FreshAt(images[j], t)
    {
      if images[i].databaseBuiltAt > t || images[i].scannedAt > t { return false; }
      if t - images[i].databaseBuiltAt > images[i].maxDatabaseHours * HOUR { return false; }
      if t - images[i].scannedAt > images[i].maxScanHours * HOUR { return false; }
    }
    return true;
  }

  predicate EventFreshAt(qualifiedAt: int, images: seq<Scan>, t: int) {
    && images != [] && qualifiedAt <= t
    && forall i :: 0 <= i < |images| ==> t - qualifiedAt <= images[i].maxScanHours * HOUR
  }

  /** `_check_qualification_timestamp_at`: the smallest scan bound of any image applies; without
      images there is no smallest one and the check fails. */
  method CheckQualificationTimestamp(qualifiedAt: int, images: seq<Scan>, t: int) returns (ok: bool)
    ensures ok <==> EventFreshAt(qualifiedAt, images, t)
  {
    if images == [] || qualifiedAt > t { return false; }
    var least := images[0].maxScanHours;
    for i := 1 to |images|
      invariant exists j :: 0 <= j < i && images[j].maxScanHours == least
      invariant forall j :: 0 <= j < i ==> least <= images[j].maxScanHours
    {
      if images[i].maxScanHours < least { least := images[i].maxScanHours; }
    }
    ok := t - qualifiedAt <= least * HOUR;
  }

  /** A proved grace record can never pass a freshness check, at any instant: the check bounds
      the age by the normal maximum that grace exceeds. */
  lemma GraceNeverQualifies(d: Database, scannedAt: int, l: Limits, t: int)
    requires ProofHolds(d, scannedAt, l) && d.freshness.LatestAvailableGrace?
    ensures !FreshAt(ScanBlock(d, scannedAt, l), t)
  {
  }

  /** Evidence of one image as the assembler meets it. */
  datatype Evidence = Evidence(database: Database, scannedAt: int)

  predicate Assembles(evidence: seq<Evidence>, l: Limits, qualifiedAt: int) {
    forall i :: 0 <= i < |evidence| ==>
      && ProofHolds(evidence[i].database, evidence[i].scannedAt, l)
      && FreshAt(ScanBlock(evidence[i].database, evidence[i].scannedAt, l), qualifiedAt)
  }

  function ScanBlocks(evidence: seq<Evidence>, l: Limits): (r: seq<Scan>)
    ensures |r| == |evidence|
    ensures forall i :: 0 <= i < |r| ==> r[i] == ScanBlock(evidence[i].database, evidence[i].scannedAt, l)
  {
    if evidence == [] then []
    else [ScanBlock(evidence[0].database, evidence[0].scannedAt, l)] + ScanBlocks(evidence[1..], l)
  }

  /** The time checks of `sign`. */
  predicate Signs(images: seq<Scan>, qualifiedAt: int, expiresAt: Option<int>, now: int) {
    && (forall i :: 0 <= i < |images| ==> FreshAt(images[i], now))
    && EventFreshAt(qualifiedAt, images, now)
    && (expiresAt.Some? ==> now < expiresAt.value)
  }

  /** Freshness through the pipeline: an index that was assembled and then signed holds, for
      every image, a database of the fresh class and one chain of instants from the database
      build to the signature that is no longer than the database bound. */
  lemma {:induction false} SignedIndexIsFresh(evidence: seq<Evidence>, l: Limits, qualifiedAt: int,
                                              expiresAt: Option<int>, now: int, i: nat)
    requires Assembles(evidence, l, qualifiedAt) && Signs(ScanBlocks(evidence, l), qualifiedAt, expiresAt, now)
    requires i < |evidence|
    ensures var d, scannedAt := evidence[i].database, evidence[i].scannedAt;
            && d.freshness.Fresh?
            && d.builtAt <= d.observedAt <= scannedAt <= qualifiedAt <= now
            && now - d.builtAt <= l.maxHours * HOUR
            && now - scannedAt <= l.maxScanHours * HOUR
            && now - qualifiedAt <= l.maxScanHours * HOUR
            && d.check.Some? && d.check.value.observedAt <= d.observedAt
            && (expiresAt.Some? ==> now < expiresAt.value)
  {
    var d, scannedAt := evidence[i].database, evidence[i].scannedAt;
    assert ProofHolds(d, scannedAt, l) && FreshAt(ScanBlock(d, scannedAt, l), qualifiedAt);
    if d.freshness.LatestAvailableGrace? { GraceNeverQualifies(d, scannedAt, l, qualifiedAt); }
    assert ScanBlocks(evidence, l)[i] == ScanBlock(d, scannedAt, l);
  }

  /** When an assembled index can be signed, exactly: from its qualification until the first of its
      databases or scans is too old or the index expires. The bound on the qualification itself adds
      nothing, since every scan precedes it; an index without images is never signed. */
  lemma {:induction false} SigningWindow(evidence: seq<Evidence>, l: Limits, qualifiedAt: int, expiresAt: Option<int>,
                                         now: int)
    requires Assembles(evidence, l, qualifiedAt)
    ensures Signs(ScanBlocks(evidence, l), qualifiedAt, expiresAt, now) <==>
      && evidence != [] && qualifiedAt <= now && (expiresAt.Some? ==> now < expiresAt.value)
      && forall i :: 0 <= i < |evidence| ==>
           && now - evidence[i].database.builtAt <= l.maxHours * 3_600_000_000
           && now - evidence[i].scannedAt <= l.maxScanHours * 3_600_000_000
  {
    hide ProofHolds;
    var blocks := ScanBlocks(evidence, l);
    forall i | 0 <= i < |evidence|
      ensures blocks[i] == ScanBlock(evidence[i].database, evidence[i].scannedAt, l) && FreshAt(blocks[i], qualifiedAt)
    {
    }
  }

  /** The checks of `sign` on any scan blocks whatever. */
  lemma SigningIsExact(images: seq<Scan>, qualifiedAt: int, expiresAt: Option<int>, now: int)
    ensures Signs(images, qualifiedAt, expiresAt, now) <==>
      && images != [] && qualifiedAt <= now && (expiresAt.Some? ==> now < expiresAt.value)
      && forall i :: 0 <= i < |images| ==>
           && 0 <= now - images[i].databaseBuiltAt <= images[i].maxDatabaseHours * 3_600_000_000
           && 0 <= now - images[i].scannedAt <= images[i].maxScanHours * 3_600_000_000
           && now - qualifiedAt <= images[i].maxScanHours * 3_600_000_000
  {
  }
}
