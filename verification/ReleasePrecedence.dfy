/** The order of versions in the release contract
    (packages/release-contracts/src/stateport_release/contract.py) beside the assembler's own. */
module ReleasePrecedence {
  import opened Text
  import opened Semver

  /** One part of a pre-release key: a number, a text, or the mark of no pre-release at all. */
  datatype Part = Number(n: nat) | Word(w: string) | Final

  datatype Precedence = Precedence(major: nat, minor: nat, patch: nat, pre: seq<Part>)

  function PreRelease(v: string): string {
    AfterFirst(Before(v, '+'), '-')
  }

  function PartOf(id: string): Option<Part> {
    if id == [] || !AllDigits(id) then Some(Word(id))
    else if |id| > 1 && id[0] == '0' then None
    else Some(Number(Value(id)))
  }

  function PartsOf(ids: seq<string>): (r: Option<seq<Part>>)
    ensures r.Some? ==> |r.value| == |ids| && forall i :: 0 <= i < |ids| ==> r.value[i] != Final
  {
    if ids == [] then Some([])
    else
      var first, rest := PartOf(ids[0]), PartsOf(ids[1..]);
      if first.None? || rest.None? then None else Some([first.value] + rest.value)
  }

  /** The contract's `_semver_key`; nothing where it refuses. */
  function PrecedenceOf(v: string): Option<Precedence> {
    if !IsSemver(v) then None
    else
      var parts := Split(Before(Before(v, '+'), '-'), '.');
      var pre := if '-' in Before(v, '+') then PartsOf(Split(PreRelease(v), '.')) else Some([Final]);
      if pre.None? then None
      else Some(Precedence(Value(parts[0]), Value(parts[1]), Value(parts[2]), pre.value))
  }

  predicate PartBelow(a: Part, b: Part) {
    match (a, b) {
      case (Number(m), Number(n)) => m < n
      case (Number(_), _) => true
      case (Word(s), Word(t)) => Lt(s, t)
      case (Word(_), Final) => true
      case (_, _) => false
    }
  }

  /** Python's order on tuples of pairs. */
  predicate PreBelow(a: seq<Part>, b: seq<Part>) {
    if a == [] || b == [] then a == [] && b != []
    else if a[0] == b[0] then PreBelow(a[1..], b[1..])
    else PartBelow(a[0], b[0])
  }

  predicate Precedes(a: Precedence, b: Precedence) {
    if a.major != b.major then a.major < b.major
    else if a.minor != b.minor then a.minor < b.minor
    else if a.patch != b.patch then a.patch < b.patch
    else PreBelow(a.pre, b.pre)
  }

  lemma PartBelowIsStrict(a: Part, b: Part, c: Part)
    ensures !PartBelow(a, a)
    ensures PartBelow(a, b) && PartBelow(b, c) ==> PartBelow(a, c) && a != c
  {
    hide Le;
    if a.Word? && b.Word? && c.Word? && Lt(a.w, b.w) && Lt(b.w, c.w) { LtTransitive(a.w, b.w, c.w); }
  }

  lemma PartBelowIsTotal(a: Part, b: Part)
    ensures a == b || PartBelow(a, b) || PartBelow(b, a)
  {
    if a.Word? && b.Word? { LeTotal(a.w, b.w); }
  }

  lemma {:induction false} PreBelowIsStrict(a: seq<Part>, b: seq<Part>, c: seq<Part>)
    ensures !PreBelow(a, a)
    ensures PreBelow(a, b) && PreBelow(b, c) ==> PreBelow(a, c) && a != c
  {
    hide PartBelow;
    if a != [] {
      PreBelowIsStrict(a[1..], if b == [] then [] else b[1..], if c == [] then [] else c[1..]);
      if b != [] && c != [] { PartBelowIsStrict(a[0], b[0], c[0]); }
    }
  }

  lemma {:induction false} PreBelowIsTotal(a: seq<Part>, b: seq<Part>)
    ensures a == b || PreBelow(a, b) || PreBelow(b, a)
  {
    hide PartBelow;
    if a != [] && b != [] {
      PreBelowIsTotal(a[1..], b[1..]);
      PartBelowIsTotal(a[0], b[0]);
      assert a == [a[0]] + a[1..] && b == [b[0]] + b[1..];
    }
  }

  /** The contract's order is a strict total order on its keys. */
  lemma PrecedesIsStrictOrder(a: Precedence, b: Precedence, c: Precedence)
    ensures !Precedes(a, a)
    ensures Precedes(a, b) && Precedes(b, c) ==> Precedes(a, c)
    ensures a == b || Precedes(a, b) || Precedes(b, a)
  {
    hide PreBelow;
    PreBelowIsStrict(a.pre, b.pre, c.pre);
    PreBelowIsTotal(a.pre, b.pre);
  }

  // ---------- both orders at once ----------

  /** A successor has to come later in both orders: the assembler's own comparison, and the
      contract's when the assembled index is validated. */
  predicate Follows(v: string, w: string) {
    && IsSemver(v) && IsSemver(w)
    && KeyOf(v).Some? && KeyOf(w).Some? && Less(KeyOf(v).value, KeyOf(w).value)
    && PrecedenceOf(v).Some? && PrecedenceOf(w).Some? && Precedes(PrecedenceOf(v).value, PrecedenceOf(w).value)
  }

  lemma FollowsIsTransitive(u: string, v: string, w: string)
    requires Follows(u, v) && Follows(v, w)
    ensures Follows(u, w) && u != w
  {
    hide KeyOf, PrecedenceOf, IsSemver, Less, Precedes;
    LessIsTransitive(KeyOf(u).value, KeyOf(v).value, KeyOf(w).value);
    PrecedesIsStrictOrder(PrecedenceOf(u).value, PrecedenceOf(v).value, PrecedenceOf(w).value);
  }

  lemma CoreIsPlain(core: string)
    requires IsCore(core)
    ensures Before(core, '+') == core && Before(core, '-') == core && '-' !in core && '+' !in core
  {
    hide Split;
    NumeralsHaveNoSign(core, '-');
    NumeralsHaveNoSign(core, '+');
    assert core[..|core|] == core;
  }

  lemma PreReleaseShape(core: string, rest: string)
    requires IsCore(core) && IsSemver(core + "-" + rest)
    ensures var v := core + "-" + rest; '-' in Before(v, '+') && Before(Before(v, '+'), '-') == core
  {
    hide Split, IsIdentifiers;
    var v := core + "-" + rest;
    CoreIsPlain(core);
    var p := Find(v, '+');
    assert v[|core|] == '-';
    assert forall k :: 0 <= k < |core| ==> v[k] == core[k] && v[k] != '+';
    var main := Before(v, '+');
    assert main[..|core|] == core && main[|core|] == '-';
    FindUnchanged(main, |core|, '-');
  }

  /** In the contract's order every pre-release precedes its release. */
  lemma PreReleasePrecedesItsRelease(core: string, rest: string)
    requires IsCore(core) && PrecedenceOf(core + "-" + rest).Some?
    ensures PrecedenceOf(core).Some?
    ensures Precedes(PrecedenceOf(core + "-" + rest).value, PrecedenceOf(core).value)
  {
    hide Split, Value, IsIdentifiers;
    CoreIsPlain(core);
    PreReleaseShape(core, rest);
    assert |Split(PreRelease(core + "-" + rest), '.')| > 0;
  }

  /** The two orders oppose each other between a release and its own pre-releases, so neither
      can ever be assembled on top of the other. */
  lemma {:induction false} ReleaseAndPreReleaseNeverFollow(core: string, rest: string)
    requires IsCore(core) && rest != []
    ensures !Follows(core, core + "-" + rest) && !Follows(core + "-" + rest, core)
    ensures PrecedenceOf(core + "-" + rest).Some? ==>
      !OrdersAgree(core, core + "-" + rest) && !OrdersAgree(core + "-" + rest, core)
  {
    hide KeyOf, PrecedenceOf, IsSemver, Less, Precedes;
    var v := core + "-" + rest;
    if PrecedenceOf(v).Some? {
      PreReleasePrecedesItsRelease(core, rest);
      ReleaseSortsBeforeItsPreReleases(core, rest);
      var a, b := PrecedenceOf(v).value, PrecedenceOf(core).value;
      PrecedesIsStrictOrder(a, b, a);
      LessIsStrict(KeyOf(v).value, KeyOf(core).value);
    }
  }

  lemma {:induction false} LessIsStrict(a: Key, b: Key)
    ensures !(Less(a, b) && Less(b, a))
  {
    hide Le;
    if Less(a, b) && Less(b, a) { LessIsTransitive(a, b, a); }
  }

  // ---------- where the two orders agree ----------

  /** Both orders put one version before the other, or neither does. */
  predicate OrdersAgree(v: string, w: string) {
    && KeyOf(v).Some? && KeyOf(w).Some? && PrecedenceOf(v).Some? && PrecedenceOf(w).Some?
    && (Less(KeyOf(v).value, KeyOf(w).value) <==> Precedes(PrecedenceOf(v).value, PrecedenceOf(w).value))
  }

  lemma {:induction false} SameNumbers(v: string)
    requires KeyOf(v).Some? && PrecedenceOf(v).Some?
    ensures var k, p := KeyOf(v).value, PrecedenceOf(v).value;
            k.major == p.major && k.minor == p.minor && k.patch == p.patch
  {
    hide Split, Value, IsIdentifiers, TrailingNumber, PartsOf;
    VersionParts(v);
  }

  /** Between versions with different cores the orders always agree. */
  lemma {:induction false} DifferentCoresAgree(v: string, w: string)
    requires KeyOf(v).Some? && KeyOf(w).Some? && PrecedenceOf(v).Some? && PrecedenceOf(w).Some?
    requires var a, b := KeyOf(v).value, KeyOf(w).value; (a.major, a.minor, a.patch) != (b.major, b.minor, b.patch)
    ensures OrdersAgree(v, w)
  {
    hide KeyOf, PrecedenceOf, PreBelow, Lt;
    SameNumbers(v);
    SameNumbers(w);
  }

  /** One identifier that is no number, like alpha or rc1. */
  predicate IsLabel(l: string) {
    l != [] && (forall i :: 0 <= i < |l| ==> IsIdentifierChar(l[i])) && !AllDigits(l)
  }

  /** A numbered pre-release: core-label.n. */
  function Numbered(core: string, l: string, n: nat): string {
    core + "-" + (l + "." + Decimal(n))
  }

  /** One label is the beginning of another that goes on with a hyphen, the only character of an
      identifier that sorts before the dot. */
  predicate DashAfter(a: string, b: string) {
    a < b && b[|a|] == '-'
  }

  lemma {:induction false} LabelsBeforeDots(l: string, k: string, d: string)
    requires (forall i :: 0 <= i < |l| ==> IsIdentifierChar(l[i]))
    requires (forall i :: 0 <= i < |k| ==> IsIdentifierChar(k[i]))
    ensures Lt(l + "." + d, k + "." + d) <==>
      if DashAfter(l, k) then false else if DashAfter(k, l) then true else Lt(l, k)
  {
    var x, y := l + "." + d, k + "." + d;
    if l == [] || k == [] {
      assert x[0] == (if l == [] then '.' else l[0]) && y[0] == (if k == [] then '.' else k[0]);
      if l == k { assert x == y; }
    } else {
      assert x[0] == l[0] && y[0] == k[0] && x[1..] == l[1..] + "." + d && y[1..] == k[1..] + "." + d;
      assert l == [l[0]] + l[1..] && k == [k[0]] + k[1..];
      if l[0] == k[0] {
        LabelsBeforeDots(l[1..], k[1..], d);
        SameHead(x, y);
        SameHead(l, k);
        assert DashAfter(l, k) <==> DashAfter(l[1..], k[1..]);
        assert DashAfter(k, l) <==> DashAfter(k[1..], l[1..]);
      }
    }
  }

  lemma {:induction false} SameHead(x: string, y: string)
    requires x != [] && y != [] && x[0] == y[0]
    ensures Lt(x, y) <==> Lt(x[1..], y[1..])
  {
    assert x == [x[0]] + x[1..] && y == [y[0]] + y[1..];
  }

  lemma {:induction false} NumberedKey(core: string, l: string, n: nat)
    requires IsCore(core) && IsLabel(l)
    ensures var parts := Split(core, '.');
            KeyOf(Numbered(core, l, n))
            == Some(Key(Value(parts[0]), Value(parts[1]), Value(parts[2]), n, l + "." + Decimal(n)))
  {
    hide Split, Decimal, Value, KeyOf, IsIdentifierChar;
    KeyOfPreRelease(core, l + "." + Decimal(n));
    TrailingOf(l + ".", Decimal(n));
    ValueOfDecimal(n);
  }

  lemma {:induction false} NumberedPrecedence(core: string, l: string, n: nat)
    requires IsCore(core) && IsLabel(l)
    ensures var v, parts := Numbered(core, l, n), Split(core, '.');
            && IsSemver(v)
            && PrecedenceOf(v)
               == Some(Precedence(Value(parts[0]), Value(parts[1]), Value(parts[2]), [Word(l), Number(n)]))
  {
    hide Split, Decimal, Value, IsIdentifiers, PartOf, IsLabel, IsSemver, Numbered;
    var rest := l + "." + Decimal(n);
    NumberedText(core, l, n);
    var ids := [l, Decimal(n)];
    assert PartOf(l) == Some(Word(l)) by { LabelPart(l); }
    assert PartOf(Decimal(n)) == Some(Number(n)) by { DecimalPart(n); }
    PartsOfTwo(ids);
  }

  lemma {:induction false} LabelPart(l: string)
    requires IsLabel(l)
    ensures PartOf(l) == Some(Word(l))
  {
  }

  lemma {:induction false} PartsOfTwo(ids: seq<string>)
    requires |ids| == 2 && PartOf(ids[0]).Some? && PartOf(ids[1]).Some?
    ensures PartsOf(ids) == Some([PartOf(ids[0]).value, PartOf(ids[1]).value])
  {
    hide PartOf;
    assert PartsOf(ids[1..][1..]) == Some([]);
    assert PartsOf(ids[1..]).value == [PartOf(ids[1]).value];
    assert PartsOf(ids).value == [PartOf(ids[0]).value, PartOf(ids[1]).value];
  }

  lemma {:induction false} DecimalIsNumeral(n: nat)
    ensures IsNumeral(Decimal(n)) && (Decimal(n)[0] == '0' ==> n == 0)
  {
    if n >= 10 { DecimalIsNumeral(n / 10); assert Decimal(n)[0] == Decimal(n / 10)[0]; }
  }

  lemma {:induction false} DecimalPart(n: nat)
    ensures PartOf(Decimal(n)) == Some(Number(n))
  {
    hide Decimal, Value;
    DecimalIsNumeral(n);
    ValueOfDecimal(n);
  }

  /** The text of a numbered pre-release takes apart as it was put together. */
  lemma {:induction false} NumberedText(core: string, l: string, n: nat)
    requires IsCore(core) && IsLabel(l)
    ensures var rest, v := l + "." + Decimal(n), Numbered(core, l, n);
            && Split(rest, '.') == [l, Decimal(n)]
            && IsSemver(v) && '-' in Before(v, '+') && Before(Before(v, '+'), '-') == core && PreRelease(v) == rest
  {
    hide Split, Decimal, Value, IsIdentifiers, IsCore, Find;
    var rest, v := l + "." + Decimal(n), Numbered(core, l, n);
    NumberedRest(l, n);
    CoreIsPlain(core);
    NoPlus(core, rest);
    assert v[..|core|] == core && v[|core|] == '-';
    assert Find(v, '+') == |v| by { FindNothing(v, '+'); }
    assert v[..|v|] == v;
    assert Find(v, '-') == |core| by { FindUnchanged(v, |core|, '-'); }
    assert v[|core| + 1..] == rest;
  }

  lemma {:induction false} FindNothing(s: string, c: char)
    requires c !in s
    ensures Find(s, c) == |s|
  {
  }

  lemma {:induction false} NoPlus(core: string, rest: string)
    requires '+' !in core && '+' !in rest
    ensures '+' !in core + "-" + rest
  {
  }

  lemma {:induction false} NumberedRest(l: string, n: nat)
    requires IsLabel(l)
    ensures var rest := l + "." + Decimal(n); Split(rest, '.') == [l, Decimal(n)] && IsIdentifiers(rest) && '+' !in rest
  {
    hide Split, Decimal;
    var rest, d := l + "." + Decimal(n), Decimal(n);
    assert rest == l + ['.'] + d;
    assert forall k :: 0 <= k < |d| ==> IsIdentifierChar(d[k]);
    SplitAtFirst(l, d, '.');
    SplitWithout(d, '.');
  }

  /** The contract's order on numbered pre-releases of one core: by label, then by number. */
  lemma {:induction false} NumberedPrecedes(p: Precedence, l: string, n: nat, k: string, m: nat)
    ensures Precedes(p.(pre := [Word(l), Number(n)]), p.(pre := [Word(k), Number(m)])) <==>
      Lt(l, k) || (l == k && n < m)
  {
    hide Le;
    var a, b := [Word(l), Number(n)], [Word(k), Number(m)];
    assert a[1..] == [Number(n)] && b[1..] == [Number(m)];
    assert [Number(n)][1..] == [] && [Number(m)][1..] == [];
    assert PreBelow([Number(n)], [Number(m)]) <==> n < m;
  }

  /** Where the orders agree on numbered pre-releases of one core, exactly: for different numbers
      when the labels are equal or sort as the numbers do, and for equal numbers unless one label
      goes on from the other with a hyphen. */
  lemma {:induction false} NumberedOrdersAgree(core: string, l: string, n: nat, k: string, m: nat)
    requires IsCore(core) && IsLabel(l) && IsLabel(k)
    ensures OrdersAgree(Numbered(core, l, n), Numbered(core, k, m)) <==>
              if n == m then !DashAfter(l, k) && !DashAfter(k, l) else l == k || (n < m <==> Lt(l, k))
  {
    hide KeyOf, PrecedenceOf, IsSemver, Decimal, Precedes, Numbered, Split, Value, Le, IsIdentifierChar, DashAfter;
    NumberedKey(core, l, n);
    NumberedKey(core, k, m);
    NumberedPrecedence(core, l, n);
    NumberedPrecedence(core, k, m);
    NumberedPrecedes(PrecedenceOf(Numbered(core, l, n)).value, l, n, k, m);
    LabelsBeforeDots(l, k, Decimal(n));
    DashIsAPrefix(l, k);
    DashIsAPrefix(k, l);
  }

  lemma {:induction false} DashIsAPrefix(a: string, b: string)
    ensures DashAfter(a, b) ==> Lt(a, b) && !Lt(b, a) && !DashAfter(b, a)
  {
    if DashAfter(a, b) {
      assert b == a + b[|a|..];
      PrefixIsBelow(a, b[|a|..]);
      if Lt(b, a) { LeAntisymmetric(a, b); }
    }
  }

  lemma {:induction false} PrefixIsBelow(a: string, c: string)
    ensures Le(a, a + c)
  {
    if a != [] {
      assert (a + c)[1..] == a[1..] + c;
      PrefixIsBelow(a[1..], c);
    }
  }

  /** Which numbered pre-release can be assembled on which: the same label with a higher number, or
      a later label whose number is not lower, hyphens aside. */
  lemma {:induction false} NumberedFollows(core: string, l: string, n: nat, k: string, m: nat)
    requires IsCore(core) && IsLabel(l) && IsLabel(k)
    ensures Follows(Numbered(core, l, n), Numbered(core, k, m)) <==>
              (l == k && n < m) || (Lt(l, k) && (n < m || (n == m && !DashAfter(l, k))))
  {
    hide KeyOf, PrecedenceOf, IsSemver, Decimal, Precedes, Numbered, Split, Value, Le, IsIdentifierChar, DashAfter;
    NumberedKey(core, l, n);
    NumberedKey(core, k, m);
    NumberedPrecedence(core, l, n);
    NumberedPrecedence(core, k, m);
    NumberedPrecedes(PrecedenceOf(Numbered(core, l, n)).value, l, n, k, m);
    LabelsBeforeDots(l, k, Decimal(n));
    DashIsAPrefix(k, l);
  }

  /** The first beta can never be assembled on a later alpha, nor the alpha on the beta. */
  lemma {:induction false} BetaNeverFollowsALaterAlpha(core: string, n: nat, m: nat)
    requires IsCore(core) && m < n
    ensures !Follows(Numbered(core, "alpha", n), Numbered(core, "beta", m))
    ensures !Follows(Numbered(core, "beta", m), Numbered(core, "alpha", n))
    ensures !OrdersAgree(Numbered(core, "beta", m), Numbered(core, "alpha", n))
  {
    hide Numbered, Follows, OrdersAgree, IsCore;
    assert IsLabel("alpha") by { assert "alpha"[0] == 'a'; }
    assert IsLabel("beta") by { assert "beta"[0] == 'b'; }
    assert Lt("alpha", "beta") && !Lt("beta", "alpha") by { assert "alpha"[0] == 'a' && "beta"[0] == 'b'; }
    NumberedFollows(core, "alpha", n, "beta", m);
    NumberedFollows(core, "beta", m, "alpha", n);
    NumberedOrdersAgree(core, "beta", m, "alpha", n);
  }

  // ---------- pre-releases of one identifier ----------

  /** Where the orders agree on pre-releases of one identifier, exactly: when the labels end in the
      same number, or in none, or sort as those numbers do. */
  lemma {:induction false} BareLabelsAgree(core: string, l: string, k: string)
    requires IsCore(core) && IsLabel(l) && IsLabel(k)
    ensures OrdersAgree(core + "-" + l, core + "-" + k) <==>
              l == k || TrailingNumber(l) == TrailingNumber(k) || (TrailingNumber(l) < TrailingNumber(k) <==> Lt(l, k))
  {
    hide KeyOf, PrecedenceOf, IsSemver, Precedes, Split, Value, Le, TrailingNumber;
    KeyOfPreRelease(core, l);
    KeyOfPreRelease(core, k);
    BarePrecedence(core, l);
    BarePrecedence(core, k);
    BarePrecedes(PrecedenceOf(core + "-" + l).value, l, k);
  }

  lemma {:induction false} BarePrecedes(p: Precedence, l: string, k: string)
    ensures Precedes(p.(pre := [Word(l)]), p.(pre := [Word(k)])) <==> Lt(l, k)
  {
    hide Le;
    var a, b := [Word(l)], [Word(k)];
    assert a[1..] == [] && b[1..] == [];
    assert PreBelow(a, b) <==> if a[0] == b[0] then PreBelow([], []) else PartBelow(a[0], b[0]);
  }

  lemma {:induction false} BarePrecedence(core: string, l: string)
    requires IsCore(core) && IsLabel(l)
    ensures var v, parts := core + "-" + l, Split(core, '.');
            PrecedenceOf(v) == Some(Precedence(Value(parts[0]), Value(parts[1]), Value(parts[2]), [Word(l)]))
  {
    hide Split, Value, IsCore, Find, IsIdentifiers;
    var v := core + "-" + l;
    CoreIsPlain(core);
    BareRest(l);
    NoPlus(core, l);
    assert v[..|core|] == core && v[|core|] == '-';
    assert Find(v, '+') == |v| by { FindNothing(v, '+'); }
    assert v[..|v|] == v;
    assert Find(v, '-') == |core| by { FindUnchanged(v, |core|, '-'); }
    assert v[|core| + 1..] == l;
    PartsOfOne(l);
  }

  lemma {:induction false} BareRest(l: string)
    requires IsLabel(l)
    ensures Split(l, '.') == [l] && IsIdentifiers(l) && '+' !in l
  {
    hide Split;
    SplitWithout(l, '.');
  }

  lemma {:induction false} PartsOfOne(l: string)
    requires IsLabel(l)
    ensures PartsOf([l]) == Some([Word(l)])
  {
    LabelPart(l);
    assert [l][1..] == [] && PartsOf([]) == Some([]);
    assert PartsOf([l]).Some? && PartsOf([l]).value == [Word(l)];
  }
}
