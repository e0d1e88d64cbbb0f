/** Which texts are release versions, and how numbers and identifiers order them, in terms of the
    texts alone (scripts/assemble_release_index.py and
    packages/release-contracts/src/stateport_release/contract.py). */
module VersionGrammar {
  import opened Text
  import opened Semver
  import opened ReleasePrecedence

  const DIGITS := "0123456789"
  const CAPITALS := "ABCDEFGHIJKLMNOPQRSTUVWXYZ"
  const SMALL := "abcdefghijklmnopqrstuvwxyz"

  predicate IsWordChar(c: char) {
    c in DIGITS || c in CAPITALS || c in SMALL || c == '-'
  }

  ghost predicate IsNumber(s: string) {
    s == "0" || (s != "" && s[0] != '0' && forall i :: 0 <= i < |s| ==> s[i] in DIGITS)
  }

  ghost predicate IsWord(s: string) {
    s != "" && forall i :: 0 <= i < |s| ==> IsWordChar(s[i])
  }

  /** Words with dots between them. */
  ghost predicate IsDotted(s: string) {
    exists words :: words != [] && s == Join(words, ".") && forall i :: 0 <= i < |words| ==> IsWord(words[i])
  }

  function Marked(mark: char, text: Option<string>): string {
    if text.Some? then [mark] + text.value else ""
  }

  /** The text of a version made of three numbers, a pre-release and build metadata. */
  ghost predicate IsVersion(v: string, a: string, b: string, c: string, pre: Option<string>, build: Option<string>) {
    && IsNumber(a) && IsNumber(b) && IsNumber(c)
    && (pre.Some? ==> IsDotted(pre.value)) && (build.Some? ==> IsDotted(build.value))
    && v == a + "." + (b + "." + c) + Marked('-', pre) + Marked('+', build)
  }

  lemma DigitMeans(c: char)
    ensures IsDigit(c) <==> c in DIGITS
  {
  }

  lemma CapitalMeans(c: char)
    ensures 'A' <= c <= 'Z' <==> c in CAPITALS
  {
  }

  lemma SmallMeans(c: char)
    ensures 'a' <= c <= 'z' <==> c in SMALL
  {
  }

  lemma NumeralMeans(s: string)
    ensures IsNumeral(s) <==> IsNumber(s)
  {
    hide DIGITS, IsDigit;
    forall i | 0 <= i < |s| ensures IsDigit(s[i]) <==> s[i] in DIGITS { DigitMeans(s[i]); }
    assert IsDigit('0') by { ZeroIsDigit(); }
    if |s| == 1 && s[0] == '0' { assert s == "0"; }
  }

  lemma ZeroIsDigit()
    ensures IsDigit('0')
  {
  }

  lemma WordMeans(s: string)
    ensures IsWord(s) <==> s != [] && forall k :: 0 <= k < |s| ==> IsIdentifierChar(s[k])
  {
    hide DIGITS, CAPITALS, SMALL;
    forall i | 0 <= i < |s| ensures IsIdentifierChar(s[i]) <==> IsWordChar(s[i]) {
      DigitMeans(s[i]);
      CapitalMeans(s[i]);
      SmallMeans(s[i]);
    }
  }

  lemma NoSignInWord(s: string)
    requires IsWord(s)
    ensures '.' !in s && '+' !in s
  {
    hide IsWord;
    WordMeans(s);
  }

  lemma DottedMeans(s: string)
    ensures IsIdentifiers(s) <==> IsDotted(s)
  {
    hide Split, Join, IsWord, IsIdentifierChar;
    var parts := Split(s, '.');
    forall i | 0 <= i < |parts| ensures IsWord(parts[i]) <==>
      parts[i] != [] && forall k :: 0 <= k < |parts[i]| ==> IsIdentifierChar(parts[i][k])
    {
      WordMeans(parts[i]);
    }
    JoinSplit(s, '.');
    if IsDotted(s) {
      var words :| words != [] && s == Join(words, ".") && forall i :: 0 <= i < |words| ==> IsWord(words[i]);
      forall i | 0 <= i < |words| ensures '.' !in words[i] { NoSignInWord(words[i]); }
      SplitOfJoin(words, '.');
    }
  }

  lemma DottedHasNoPlus(s: string)
    requires IsDotted(s)
    ensures '+' !in s
  {
    hide Join, IsWord;
    var words :| words != [] && s == Join(words, ".") && forall i :: 0 <= i < |words| ==> IsWord(words[i]);
    forall i | 0 <= i < |words| ensures '+' !in words[i] { NoSignInWord(words[i]); }
    JoinLeavesOut(words, '+');
  }

  lemma {:induction false} JoinLeavesOut(words: seq<string>, c: char)
    requires c != '.' && forall i :: 0 <= i < |words| ==> c !in words[i]
    ensures c !in Join(words, ".")
  {
    if |words| > 1 { JoinLeavesOut(words[1..], c); }
  }

  lemma CoreMeans(s: string)
    ensures IsCore(s) <==> exists a, b, c :: IsNumber(a) && IsNumber(b) && IsNumber(c) && s == a + "." + (b + "." + c)
  {
    hide Split, IsNumber, IsNumeral;
    var parts := Split(s, '.');
    if IsCore(s) {
      JoinSplit(s, '.');
      JoinOfThree(parts);
      NumeralMeans(parts[0]);
      NumeralMeans(parts[1]);
      NumeralMeans(parts[2]);
    }
    forall a, b, c | IsNumber(a) && IsNumber(b) && IsNumber(c) && s == a + "." + (b + "." + c) ensures IsCore(s) {
      ThreeNumbers(a, b, c);
    }
  }

  lemma {:induction false} ThreeNumbers(a: string, b: string, c: string)
    requires IsNumber(a) && IsNumber(b) && IsNumber(c)
    ensures IsCore(a + "." + (b + "." + c)) && Split(a + "." + (b + "." + c), '.') == [a, b, c]
  {
    hide Split, IsNumber;
    NumeralMeans(a);
    NumeralMeans(b);
    NumeralMeans(c);
    SplitAtFirst(a, b + ['.'] + c, '.');
    SplitAtFirst(b, c, '.');
    SplitWithout(c, '.');
    assert a + "." + (b + "." + c) == a + ['.'] + (b + ['.'] + c);
  }

  /** A text is cut at the first occurrence of a character, or not at all. */
  lemma CutAt(s: string, head: string, c: char, tail: Option<string>)
    requires s == head + Marked(c, tail) && c !in head
    ensures Before(s, c) == head && (c in s <==> tail.Some?) && (tail.Some? ==> AfterFirst(s, c) == tail.value)
  {
    hide Find;
    assert s[..|head|] == head;
    assert tail.Some? ==> s[|head|] == c && s[|head| + 1..] == tail.value;
    assert tail.None? ==> s == head;
    FindUnchanged(s, |head|, c);
  }

  lemma Cut(s: string, c: char) returns (tail: Option<string>)
    ensures s == Before(s, c) + Marked(c, tail) && (c in s <==> tail.Some?)
    ensures tail.Some? ==> tail.value == AfterFirst(s, c)
  {
    var n := Find(s, c);
    tail := if n < |s| then Some(s[n + 1..]) else None;
    assert s == s[..n] + s[n..];
    if n < |s| { assert s[n..] == [c] + s[n + 1..]; }
  }

  /** The versions are exactly the texts `A.B.C`, with `-` and a pre-release and then with `+` and
      build metadata where those are there: numbers without a leading zero, and words of letters,
      digits and hyphens with dots between them. */
  lemma GrammarIsExact(v: string)
    ensures IsSemver(v) <==> exists a, b, c, pre, build :: IsVersion(v, a, b, c, pre, build)
  {
    hide IsCore, IsIdentifiers, IsNumber, IsDotted;
    if IsSemver(v) { var a, b, c, pre, build := VersionIsFormed(v); }
    forall a, b, c, pre, build | IsVersion(v, a, b, c, pre, build) ensures IsSemver(v) {
      FormedIsVersion(v, a, b, c, pre, build);
    }
  }

  lemma VersionIsFormed(v: string) returns (a: string, b: string, c: string, pre: Option<string>, build: Option<string>)
    requires IsSemver(v)
    ensures IsVersion(v, a, b, c, pre, build)
  {
    hide IsCore, IsIdentifiers, IsNumber, IsDotted, Before, AfterFirst, Marked;
    var main := Before(v, '+');
    var core := Before(main, '-');
    build := Cut(v, '+');
    pre := Cut(main, '-');
    CoreMeans(core);
    a, b, c :| IsNumber(a) && IsNumber(b) && IsNumber(c) && core == a + "." + (b + "." + c);
    if pre.Some? { DottedMeans(pre.value); }
    if build.Some? { DottedMeans(build.value); }
  }

  lemma FormedIsVersion(v: string, a: string, b: string, c: string, pre: Option<string>, build: Option<string>)
    requires IsVersion(v, a, b, c, pre, build)
    ensures IsSemver(v) && Before(Before(v, '+'), '-') == a + "." + (b + "." + c)
    ensures pre.Some? ==> PreRelease(v) == pre.value
    ensures '-' in Before(v, '+') <==> pre.Some?
  {
    hide IsCore, IsIdentifiers, IsNumber, IsDotted, Before, AfterFirst;
    var core := a + "." + (b + "." + c);
    CoreMeans(core);
    NumeralsHaveNoSign(core, '-');
    NumeralsHaveNoSign(core, '+');
    if pre.Some? { DottedMeans(pre.value); DottedHasNoPlus(pre.value); }
    if build.Some? { DottedMeans(build.value); }
    var main := core + Marked('-', pre);
    assert '+' !in main;
    CutAt(v, main, '+', build);
    CutAt(main, core, '-', pre);
  }

  // ---------- order ----------

  /** What decides between two pre-releases is the first identifier in which they differ; where
      there is none, the shorter comes first. */
  lemma {:induction false} FirstDifferenceDecides(a: seq<Part>, b: seq<Part>)
    ensures PreBelow(a, b) <==>
      || a < b
      || exists k :: 0 <= k < |a| && k < |b| && a[..k] == b[..k] && PartBelow(a[k], b[k])
  {
    hide PartBelow;
    if a != [] && b != [] {
      if a[0] == b[0] {
        var x, y := a[1..], b[1..];
        FirstDifferenceDecides(x, y);
        assert a == [a[0]] + x && b == [b[0]] + y;
        assert x < y <==> a < b;
        forall k | 0 <= k < |x| && k < |y| ensures a[..k + 1] == b[..k + 1] <==> x[..k] == y[..k] {
          assert a[..k + 1] == [a[0]] + x[..k] && b[..k + 1] == [b[0]] + y[..k];
          assert x[..k] == a[..k + 1][1..] && y[..k] == b[..k + 1][1..];
        }
        PartBelowIsStrict(a[0], a[0], a[0]);
      } else {
        assert a[..0] == b[..0];
      }
    }
  }

  predicate HasOther(id: string) {
    exists i :: 0 <= i < |id| && id[i] !in DIGITS
  }

  /** An identifier counts as a number when it is written as one, and as a word when it holds
      anything but digits; digits with a superfluous zero are neither. */
  ghost predicate ReadsAs(id: string, part: Part) {
    match part
    case Number(n) => id == Decimal(n)
    case Word(w) => id == w && HasOther(w)
    case Final => false
  }

  lemma PartIsExact(id: string, part: Part)
    requires id != ""
    ensures PartOf(id) == Some(part) <==> ReadsAs(id, part)
  {
    hide DIGITS, Decimal, Value;
    assert AllDigits(id) <==> !HasOther(id) by {
      hide IsDigit;
      forall i | 0 <= i < |id| ensures IsDigit(id[i]) <==> id[i] in DIGITS { DigitMeans(id[i]); }
    }
    if IsNumeral(id) { DecimalOfValue(id); }
    if part.Number? {
      ValueOfDecimal(part.n);
      DecimalIsNumeral(part.n);
    }
  }

  lemma {:induction false} DecimalIsNumeral(n: nat)
    ensures IsNumeral(Decimal(n)) && (Decimal(n)[0] == '0' ==> n == 0)
  {
    if n >= 10 { DecimalIsNumeral(n / 10); }
  }

  ghost predicate IsReadable(id: string) {
    exists part :: ReadsAs(id, part)
  }

  lemma PartExists(id: string)
    requires id != ""
    ensures PartOf(id).Some? <==> IsReadable(id)
    ensures PartOf(id).Some? ==> ReadsAs(id, PartOf(id).value)
  {
    hide PartOf, ReadsAs;
    forall part ensures PartOf(id) == Some(part) <==> ReadsAs(id, part) { PartIsExact(id, part); }
  }

  lemma {:induction false} PartsAreExact(ids: seq<string>)
    requires forall i :: 0 <= i < |ids| ==> ids[i] != ""
    ensures PartsOf(ids).Some? <==> forall i :: 0 <= i < |ids| ==> IsReadable(ids[i])
    ensures PartsOf(ids).Some? ==> forall i :: 0 <= i < |ids| ==> ReadsAs(ids[i], PartsOf(ids).value[i])
  {
    hide PartOf, ReadsAs, IsReadable;
    if ids != [] {
      PartsAreExact(ids[1..]);
      PartExists(ids[0]);
      assert forall i :: 1 <= i < |ids| ==> ids[i] == ids[1..][i - 1];
    }
  }

  /** The numbers a version is written with, and the identifiers of its pre-release, are what it
      is compared by; it has a place in the contract's order exactly when every identifier of its
      pre-release is a word or a number without a superfluous zero. */
  lemma {:induction false} PrecedenceIsExact(v: string, a: nat, b: nat, c: nat, pre: Option<string>,
                                             build: Option<string>)
    requires IsVersion(v, Decimal(a), Decimal(b), Decimal(c), pre, build)
    ensures PrecedenceOf(v).Some? <==> pre.None? || forall id :: id in Split(pre.value, '.') ==> IsReadable(id)
    ensures PrecedenceOf(v).Some? ==> IsComparedBy(PrecedenceOf(v).value, a, b, c, pre)
  {
    hide Split, IsNumber, IsDotted, Decimal, Value, IsReadable, ReadsAs, Before, PreRelease, IsSemver, PartsOf;
    FormedIsVersion(v, Decimal(a), Decimal(b), Decimal(c), pre, build);
    ThreeNumbers(Decimal(a), Decimal(b), Decimal(c));
    ValueOfDecimal(a);
    ValueOfDecimal(b);
    ValueOfDecimal(c);
    if pre.Some? {
      DottedMeans(pre.value);
      PartsAreExact(Split(pre.value, '.'));
    }
  }

  ghost predicate IsComparedBy(p: Precedence, a: nat, b: nat, c: nat, pre: Option<string>) {
    && p.major == a && p.minor == b && p.patch == c
    && match pre
       case None => p.pre == [Final]
       case Some(text) =>
         && |p.pre| == |Split(text, '.')|
         && forall i :: 0 <= i < |p.pre| ==> ReadsAs(Split(text, '.')[i], p.pre[i])
  }

  lemma {:induction false} KeyIsExact(v: string, a: nat, b: nat, c: nat, pre: Option<string>)
    requires IsVersion(v, Decimal(a), Decimal(b), Decimal(c), pre, None)
    ensures KeyOf(v).Some?
    ensures KeyOf(v).value == Key(a, b, c, TrailingNumber(if pre.Some? then pre.value else ""),
                                  if pre.Some? then pre.value else "")
  {
    hide Split, IsNumber, IsDotted, Decimal, Value, TrailingNumber, Find, IsCore;
    var core := Decimal(a) + "." + (Decimal(b) + "." + Decimal(c));
    ThreeNumbers(Decimal(a), Decimal(b), Decimal(c));
    NumeralsHaveNoSign(core, '-');
    assert v == core + Marked('-', pre);
    CutAt(v, core, '-', pre);
    KeyOfParts(v, core, a, b, c);
    assert pre.None? ==> AfterFirst(v, '-') == "";
  }

  lemma {:induction false} KeyOfParts(v: string, core: string, a: nat, b: nat, c: nat)
    requires Before(v, '-') == core && Split(core, '.') == [Decimal(a), Decimal(b), Decimal(c)]
    ensures KeyOf(v) == Some(Key(a, b, c, TrailingNumber(AfterFirst(v, '-')), AfterFirst(v, '-')))
  {
    hide Split, Decimal, Value, TrailingNumber, Find, Before, AfterFirst;
    ValueOfDecimal(a);
    ValueOfDecimal(b);
    ValueOfDecimal(c);
  }

  predicate IsLower(a: nat, b: nat, c: nat, d: nat, e: nat, f: nat) {
    a < d || (a == d && (b < e || (b == e && c < f)))
  }

  /** Between versions written with different numbers the numbers decide, in the contract's order
      and in the assembler's. */
  lemma {:induction false} NumbersDecide(v: string, a: nat, b: nat, c: nat, pre: Option<string>, build: Option<string>,
                                         w: string, d: nat, e: nat, f: nat, other: Option<string>,
                                         metadata: Option<string>)
    requires IsVersion(v, Decimal(a), Decimal(b), Decimal(c), pre, build)
    requires IsVersion(w, Decimal(d), Decimal(e), Decimal(f), other, metadata)
    requires a != d || b != e || c != f
    ensures PrecedenceOf(v).Some? && PrecedenceOf(w).Some? ==>
      (Precedes(PrecedenceOf(v).value, PrecedenceOf(w).value) <==> IsLower(a, b, c, d, e, f))
    ensures build.None? && metadata.None? ==>
      KeyOf(v).Some? && KeyOf(w).Some? && (Less(KeyOf(v).value, KeyOf(w).value) <==> IsLower(a, b, c, d, e, f))
  {
    hide Decimal, IsVersion, KeyOf, PrecedenceOf, TrailingNumber;
    PrecedenceIsExact(v, a, b, c, pre, build);
    PrecedenceIsExact(w, d, e, f, other, metadata);
    if build.None? && metadata.None? {
      KeyIsExact(v, a, b, c, pre);
      KeyIsExact(w, d, e, f, other);
    }
  }
}
