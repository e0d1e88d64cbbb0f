/** Release versions and the key the assembler orders them by
    (scripts/assemble_release_index.py). */
module Semver {
  import opened Text

  predicate AllDigits(s: string) {
    forall i :: 0 <= i < |s| ==> IsDigit(s[i])
  }

  /** A decimal numeral without a superfluous leading zero. */
  predicate IsNumeral(s: string) {
    s != [] && AllDigits(s) && (|s| == 1 || s[0] != '0')
  }

  function Value(s: string): nat
    requires AllDigits(s)
  {
    if s == [] then 0 else Value(s[..|s| - 1]) * 10 + (s[|s| - 1] as int - '0' as int)
  }

  function Decimal(n: nat): (s: string)
    ensures AllDigits(s) && s != []
  {
    var digit := ('0' as int + n % 10) as char;
    if n < 10 then [digit] else Decimal(n / 10) + [digit]
  }

  lemma {:induction false} ValueOfDecimal(n: nat)
    ensures Value(Decimal(n)) == n
  {
    var digit := ('0' as int + n % 10) as char;
    if n < 10 {
      assert [digit][..0] == [];
    } else {
      ValueOfDecimal(n / 10);
      assert Decimal(n)[..|Decimal(n)| - 1] == Decimal(n / 10);
    }
  }

  lemma {:induction false} DecimalOfValue(s: string)
    requires IsNumeral(s)
    ensures Decimal(Value(s)) == s && (Value(s) == 0 ==> s == "0")
  {
    var init, d := s[..|s| - 1], s[|s| - 1] as int - '0' as int;
    if |s| == 1 {
      assert Value(init) == 0;
      assert s == [s[0]];
    } else {
      assert init[0] == s[0];
      DecimalOfValue(init);
      assert Value(init) > 0;
      assert Value(s) / 10 == Value(init) && Value(s) % 10 == d;
      assert s == init + [s[|s| - 1]];
    }
  }

  // ---------- the grammar ----------

  predicate IsIdentifierChar(c: char) {
    IsDigit(c) || 'A' <= c <= 'Z' || 'a' <= c <= 'z' || c == '-'
  }

  predicate IsIdentifiers(s: string) {
    var parts := Split(s, '.');
    forall i :: 0 <= i < |parts| ==> parts[i] != [] && forall k :: 0 <= k < |parts[i]| ==> IsIdentifierChar(parts[i][k])
  }

  /** Where a character first occurs, or the length. */
  function Find(s: string, c: char): (n: nat)
    ensures n <= |s| && c !in s[..n]
    ensures n < |s| ==> s[n] == c
    ensures n < |s| <==> c in s
  {
    if s == [] || s[0] == c then 0 else 1 + Find(s[1..], c)
  }

  function Before(s: string, c: char): string { s[..Find(s, c)] }

  function AfterFirst(s: string, c: char): string {
    if Find(s, c) == |s| then [] else s[Find(s, c) + 1..]
  }

  predicate IsCore(s: string) {
    var parts := Split(s, '.');
    |parts| == 3 && IsNumeral(parts[0]) && IsNumeral(parts[1]) && IsNumeral(parts[2])
  }

  /** The pattern every release version must match: three numerals, an optional pre-release
      after a hyphen, optional build metadata after a plus sign. */
  predicate IsSemver(v: string) {
    var main := Before(v, '+');
    && IsCore(Before(main, '-'))
    && ('-' in main ==> IsIdentifiers(AfterFirst(main, '-')))
    && ('+' in v ==> IsIdentifiers(AfterFirst(v, '+')))
  }

  // ---------- the key ----------

  datatype Key = Key(major: nat, minor: nat, patch: nat, trailing: int, rest: string)

  function TrailingDigits(s: string): (r: string)
    ensures AllDigits(r)
  {
    if s == [] || !IsDigit(s[|s| - 1]) then [] else TrailingDigits(s[..|s| - 1]) + [s[|s| - 1]]
  }

  function TrailingNumber(s: string): int {
    var digits := TrailingDigits(s);
    if digits == [] then -1 else Value(digits)
  }

  /** `_semver_key`; nothing where `int` raises. */
  function KeyOf(v: string): Option<Key> {
    var core, rest := Before(v, '-'), AfterFirst(v, '-');
    var parts := Split(core, '.');
    if |parts| == 3 && forall i :: 0 <= i < 3 ==> parts[i] != [] && AllDigits(parts[i])
    then Some(Key(Value(parts[0]), Value(parts[1]), Value(parts[2]), TrailingNumber(rest), rest))
    else None
  }

  /** Python's tuple order on keys. */
  predicate Less(a: Key, b: Key) {
    if a.major != b.major then a.major < b.major
    else if a.minor != b.minor then a.minor < b.minor
    else if a.patch != b.patch then a.patch < b.patch
    else if a.trailing != b.trailing then a.trailing < b.trailing
    else Lt(a.rest, b.rest)
  }

  lemma LessIsTransitive(a: Key, b: Key, c: Key)
    requires Less(a, b) && Less(b, c)
    ensures Less(a, c) && a != c
  {
    hide Le;
    if a.major == b.major == c.major && a.minor == b.minor == c.minor && a.patch == b.patch == c.patch
       && a.trailing == b.trailing == c.trailing {
      LtTransitive(a.rest, b.rest, c.rest);
    }
  }

  lemma LessIsTotal(a: Key, b: Key)
    ensures a == b || Less(a, b) || Less(b, a)
  {
    LeTotal(a.rest, b.rest);
  }

  // ---------- when there is a key, and what it determines ----------

  lemma {:induction false} FindUnchanged(s: string, n: nat, c: char)
    requires n <= |s| && c !in s[..n] && (n < |s| ==> s[n] == c)
    ensures Find(s, c) == n
  {
  }

  lemma NumeralsHaveNoSign(s: string, c: char)
    requires IsCore(s) && !IsDigit(c) && c != '.'
    ensures c !in s
  {
    hide Split;
    var parts := Split(s, '.');
    JoinSplit(s, '.');
    forall i | 0 <= i < 3 ensures c !in parts[i] {
      assert IsNumeral(parts[i]);
    }
    assert s == parts[0] + "." + (parts[1] + "." + parts[2]) by { JoinOfThree(parts); }
  }

  lemma {:induction false} JoinOfThree(parts: seq<string>)
    requires |parts| == 3
    ensures Join(parts, ['.']) == parts[0] + "." + (parts[1] + "." + parts[2])
  {
    var two, one := parts[1..], parts[2..];
    assert two[1..] == one && Join(one, ['.']) == parts[2];
    assert Join(two, ['.']) == parts[1] + ['.'] + parts[2];
    assert Join(parts, ['.']) == parts[0] + ['.'] + Join(two, ['.']);
  }

  /** A semantic version has a key unless it has build metadata and no pre-release; then the
      numeric conversion meets the plus sign. `1.0.0+5` is such a version. */
  lemma KeyExists(v: string)
    requires IsSemver(v)
    ensures KeyOf(v).Some? <==> '+' !in v || '-' in Before(v, '+')
  {
    hide Split, Find, IsIdentifiers, Value, TrailingNumber;
    var main := Before(v, '+');
    var core := Before(main, '-');
    if '-' in main {
      PreReleaseCore(v);
      CoreHasKey(core);
    } else if '+' !in v {
      PlainCore(v);
      CoreHasKey(core);
    } else {
      PlusIsNoDigit(v);
    }
  }

  lemma {:induction false} PreReleaseCore(v: string)
    requires '-' in Before(v, '+')
    ensures var main := Before(v, '+');
            Before(v, '-') == Before(main, '-') && Find(v, '-') == Find(main, '-') < |main|
  {
  }

  lemma PlainCore(v: string)
    requires '+' !in v && '-' !in v
    ensures Before(v, '+') == v && Before(v, '-') == v
  {
  }

  lemma {:induction false} CoreHasKey(core: string)
    requires IsCore(core)
    ensures var parts := Split(core, '.'); forall i :: 0 <= i < 3 ==> parts[i] != [] && AllDigits(parts[i])
  {
  }

  lemma PlusIsNoDigit(v: string)
    requires '+' in v && '-' !in Before(v, '+')
    ensures KeyOf(v).None?
  {
    hide Split;
    var core := Before(v, '-');
    var p, h := Find(v, '+'), Find(v, '-');
    assert forall k :: 0 <= k < p ==> v[k] == v[..p][k] && v[k] != '-';
    assert p < h;
    assert core[p] == '+';
    DigitsAndDots(core, p);
  }

  lemma {:induction false} DigitsAndDots(core: string, p: nat)
    requires p < |core| && core[p] != '.' && !IsDigit(core[p])
    ensures var parts := Split(core, '.'); |parts| == 3 ==> exists i :: 0 <= i < 3 && !AllDigits(parts[i])
  {
    hide Split;
    var parts := Split(core, '.');
    JoinSplit(core, '.');
    if |parts| == 3 {
      JoinOfThree(parts);
      var a, b := |parts[0]|, |parts[1]|;
      assert core == parts[0] + "." + (parts[1] + "." + parts[2]);
      var i := if p <= a then 0 else if p <= a + 1 + b then 1 else 2;
      var k := if p <= a then p else if p <= a + 1 + b then p - a - 1 else p - a - b - 2;
      assert k < |parts[i]| && parts[i][k] == core[p];
    }
  }

  /** Distinct keyed versions never tie: the key determines the version. */
  lemma KeyIsInjective(v: string, w: string)
    requires IsSemver(v) && IsSemver(w) && KeyOf(v).Some? && KeyOf(v) == KeyOf(w)
    ensures v == w
  {
    hide Split, TrailingNumber;
    VersionFromKey(v);
    VersionFromKey(w);
  }

  function CoreText(k: Key): string {
    Decimal(k.major) + "." + (Decimal(k.minor) + "." + Decimal(k.patch))
  }

  lemma VersionFromKey(v: string)
    requires IsSemver(v) && KeyOf(v).Some?
    ensures var k := KeyOf(v).value; v == if k.rest == [] then CoreText(k) else CoreText(k) + "-" + k.rest
  {
    hide Split, TrailingNumber, Decimal, Value, IsIdentifiers, IsCore, Find;
    var core := Before(Before(v, '+'), '-');
    VersionParts(v);
    assert Before(v, '-') == core;
    CoreFromNumbers(core);
  }

  /** A keyed version is its core, followed by a hyphen and the rest where there is one. */
  lemma VersionParts(v: string)
    requires IsSemver(v) && KeyOf(v).Some?
    ensures Before(v, '-') == Before(Before(v, '+'), '-')
    ensures v == if AfterFirst(v, '-') == [] then Before(v, '-') else Before(v, '-') + "-" + AfterFirst(v, '-')
  {
    hide Split, TrailingNumber, Value, IsIdentifiers, IsCore, KeyOf;
    var main := Before(v, '+');
    KeyExists(v);
    if '-' in main {
      PreReleaseCore(v);
      PreReleaseIsNotEmpty(main, Find(main, '-'));
      var n := Find(v, '-');
      assert v == v[..n] + "-" + v[n + 1..];
    } else {
      assert v[..|v|] == v;
      PlainCore(v);
    }
  }

  lemma {:induction false} PreReleaseIsNotEmpty(main: string, n: nat)
    requires n < |main| && n == Find(main, '-') && IsIdentifiers(AfterFirst(main, '-'))
    ensures n + 1 < |main|
  {
    var rest := AfterFirst(main, '-');
    assert Split([], '.')[0] == [];
    assert Split(rest, '.')[0] != [];
  }

  lemma {:induction false} CoreFromNumbers(core: string)
    requires IsCore(core)
    ensures var parts := Split(core, '.');
            core == Decimal(Value(parts[0])) + "." + (Decimal(Value(parts[1])) + "." + Decimal(Value(parts[2])))
  {
    hide Split, Decimal, Value;
    var parts := Split(core, '.');
    JoinSplit(core, '.');
    JoinOfThree(parts);
    DecimalOfValue(parts[0]);
    DecimalOfValue(parts[1]);
    DecimalOfValue(parts[2]);
  }

  // ---------- what the order is, and is not ----------

  lemma {:induction false} TrailingOf(prefix: string, digits: string)
    requires AllDigits(digits) && prefix != [] && !IsDigit(prefix[|prefix| - 1])
    ensures TrailingDigits(prefix + digits) == digits
  {
    var s := prefix + digits;
    if digits != [] {
      var init := digits[..|digits| - 1];
      assert s[..|s| - 1] == prefix + init;
      TrailingOf(prefix, init);
      assert digits == init + [digits[|digits| - 1]];
    } else {
      assert s == prefix;
    }
  }

  lemma {:induction false} KeyOfPreRelease(core: string, rest: string)
    requires IsCore(core)
    ensures var parts := Split(core, '.');
            KeyOf(core + "-" + rest)
            == Some(Key(Value(parts[0]), Value(parts[1]), Value(parts[2]), TrailingNumber(rest), rest))
  {
    hide Split, Value, TrailingNumber;
    var v := core + "-" + rest;
    NumeralsHaveNoSign(core, '-');
    assert v[..|core|] == core && v[|core|] == '-';
    FindUnchanged(v, |core|, '-');
    assert v[|core| + 1..] == rest;
    CoreHasKey(core);
  }

  /** Within one core version, alpha.N is ordered by N, for all numbers. */
  lemma {:induction false} AlphaOrdersByNumber(core: string, n: nat, m: nat)
    requires IsCore(core)
    ensures var a, b := KeyOf(core + "-" + ("alpha." + Decimal(n))), KeyOf(core + "-" + ("alpha." + Decimal(m)));
            a.Some? && b.Some? && (Less(a.value, b.value) <==> n < m)
  {
    hide Split, Decimal, Value, Le;
    KeyOfPreRelease(core, "alpha." + Decimal(n));
    KeyOfPreRelease(core, "alpha." + Decimal(m));
    TrailingOf("alpha.", Decimal(n));
    TrailingOf("alpha.", Decimal(m));
    ValueOfDecimal(n);
    ValueOfDecimal(m);
    if n == m { assert "alpha." + Decimal(n) == "alpha." + Decimal(m); }
  }

  /** The key is not the precedence of section 11 of SemVer 2.0.0: a release sorts before every
      one of its own pre-releases. */
  lemma ReleaseSortsBeforeItsPreReleases(core: string, rest: string)
    requires IsCore(core) && rest != []
    ensures var plain, pre := KeyOf(core), KeyOf(core + "-" + rest);
            plain.Some? && pre.Some? && Less(plain.value, pre.value)
  {
    hide Split, Value;
    KeyOfPreRelease(core, rest);
    NumeralsHaveNoSign(core, '-');
    FindUnchanged(core, |core|, '-');
    assert core[..|core|] == core;
    CoreHasKey(core);
  }
}
