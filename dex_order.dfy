/**
 * The order in which the dex files of the dexen directory are loaded
 * (`dex_comparator`): the primary file (`classes.dex`, a stem without '-')
 * first, then the secondary files `secondary-N.dex` by the number N.
 */
module DexOrder {
  import opened Fs
  import opened Sorting

  /** The stem the comparator looks at: `path::stem()`. */
  function StemOf(p: Path): string {
    Stem(FileName(p))
  }

  /** A secondary stem contains a '-' (`rfind("-") != npos`). */
  predicate IsSecondary(stem: string) {
    LastIndexOf(stem, '-') != -1
  }

  /** The text after the last '-' of a secondary stem. */
  function SuffixOf(stem: string): (suffix: string)
    requires IsSecondary(stem)
    ensures '-' !in suffix
    ensures |suffix| < |stem| && stem[|stem| - |suffix| - 1] == '-'
    ensures suffix == stem[|stem| - |suffix|..]
  {
    stem[LastIndexOf(stem, '-') + 1..]
  }

  // ---------------------------------------------------------------------
  // atoi, without overflow

  /** The characters `isspace` accepts in the C locale: ' ' and '\t' to '\r'. */
  predicate IsSpace(c: char) {
    c == ' ' || '\t' <= c <= '\r'
  }

  predicate IsDigit(c: char) {
    '0' <= c <= '9'
  }

  predicate AllDigits(s: string) {
    forall i :: 0 <= i < |s| ==> IsDigit(s[i])
  }

  /** `s` without its leading white space. */
  function SkipSpaces(s: string): (t: string)
    ensures |t| <= |s| && t == s[|s| - |t|..]
    ensures t == [] || !IsSpace(t[0])
    ensures forall i :: 0 <= i < |s| - |t| ==> IsSpace(s[i])
  {
    if s != [] && IsSpace(s[0]) then
      var t := SkipSpaces(s[1..]);
      assert forall i :: 1 <= i < |s| - |t| ==> s[i] == s[1..][i - 1];
      t
    else s
  }

  /** The longest prefix of `s` made of decimal digits. */
  function LeadingDigits(s: string): (d: string)
    ensures |d| <= |s| && d == s[..|d|] && AllDigits(d)
    ensures |d| == |s| || !IsDigit(s[|d|])
  {
    if s != [] && IsDigit(s[0]) then [s[0]] + LeadingDigits(s[1..]) else []
  }

  /** The value of a string of decimal digits, most significant digit first. */
  function DigitsValue(d: string): nat
    requires AllDigits(d)
  {
    if d == [] then 0 else 10 * DigitsValue(d[..|d| - 1]) + (d[|d| - 1] as int - '0' as int)
  }

  /**
   * `atoi`: skip white space, read an optional sign, then the longest run of
   * digits; 0 when there is no digit.
   */
  function Atoi(s: string): int {
    var t := SkipSpaces(s);
    if t != [] && t[0] == '-' then -(DigitsValue(LeadingDigits(t[1..])) as int)
    else if t != [] && t[0] == '+' then DigitsValue(LeadingDigits(t[1..]))
    else DigitsValue(LeadingDigits(t))
  }

  /** The decimal numeral of `n`, as written in the name `secondary-N.dex`. */
  function Decimal(n: nat): (d: string)
    ensures d != [] && AllDigits(d)
  {
    if n < 10 then [('0' as int + n) as char]
    else Decimal(n / 10) + [('0' as int + n % 10) as char]
  }

  lemma {:induction false} LeadingDigitsOfDigits(s: string)
    requires AllDigits(s)
    ensures LeadingDigits(s) == s
  {
    if s != [] {
      LeadingDigitsOfDigits(s[1..]);
    }
  }

  lemma {:induction false} DigitsValueOfDecimal(n: nat)
    ensures DigitsValue(Decimal(n)) == n
  {
    if n >= 10 {
      DigitsValueOfDecimal(n / 10);
      var d := Decimal(n);
      assert d[..|d| - 1] == Decimal(n / 10);
    }
  }

  /** `atoi` reads back the numeral of any natural number. */
  lemma AtoiOfDecimal(n: nat)
    ensures Atoi(Decimal(n)) == n
  {
    var d := Decimal(n);
    assert SkipSpaces(d) == d;
    LeadingDigitsOfDigits(d);
    DigitsValueOfDecimal(n);
  }

  // ---------------------------------------------------------------------
  // Lexicographic order on stems

  /** `strcmp(a, b) < 0`: character-wise (code-point) lexicographic order, a proper prefix first. */
  predicate LexLess(a: string, b: string) {
    if a == [] then b != []
    else if b == [] then false
    else a[0] < b[0] || (a[0] == b[0] && LexLess(a[1..], b[1..]))
  }

  lemma {:induction false} LexLessIrreflexive(a: string)
    ensures !LexLess(a, a)
  {
    if a != [] {
      LexLessIrreflexive(a[1..]);
    }
  }

  lemma {:induction false} LexLessTransitive(a: string, b: string, c: string)
    requires LexLess(a, b) && LexLess(b, c)
    ensures LexLess(a, c)
  {
    if a != [] && b != [] && c != [] && a[0] == b[0] == c[0] {
      LexLessTransitive(a[1..], b[1..], c[1..]);
    }
  }

  lemma LexLessAsymmetric(a: string, b: string)
    requires LexLess(a, b)
    ensures !LexLess(b, a)
  {
    if LexLess(b, a) {
      LexLessTransitive(a, b, a);
      LexLessIrreflexive(a);
    }
  }

  /** Any two different stems are ordered one way or the other. */
  lemma {:induction false} LexLessConnected(a: string, b: string)
    requires a != b
    ensures LexLess(a, b) || LexLess(b, a)
  {
    if a != [] && b != [] && a[0] == b[0] {
      assert a == [a[0]] + a[1..] && b == [b[0]] + b[1..];
      LexLessConnected(a[1..], b[1..]);
    }
  }

  // ---------------------------------------------------------------------
  // The comparator

  /** The number `atoi` reads after the last '-' of a secondary stem. */
  function SuffixNumber(stem: string): int
    requires IsSecondary(stem)
  {
    Atoi(SuffixOf(stem))
  }

  /**
   * `dex_comparator(a, b)`: does `a` load before `b`? The comment above the
   * comparator does not say how two stems without '-' compare; here they are
   * in ascending lexicographic order, a choice of this model (see
   * `DexLessAsWritten` for the test as written).
   */
  predicate DexLess(a: Path, b: Path) {
    var aStem, bStem := StemOf(a), StemOf(b);
    var aDashed, bDashed := IsSecondary(aStem), IsSecondary(bStem);
    if !aDashed && bDashed then true
    else if aDashed && !bDashed then false
    else if !aDashed && !bDashed then LexLess(aStem, bStem)
    else SuffixNumber(bStem) > SuffixNumber(aStem)
  }

  /** A primary file comes before every secondary one, and never after one. */
  lemma PrimaryBeforeSecondary(a: Path, b: Path)
    requires !IsSecondary(StemOf(a)) && IsSecondary(StemOf(b))
    ensures DexLess(a, b) && !DexLess(b, a)
  {
  }

  /** Two primary files are in the lexicographic order of their stems. */
  lemma PrimaryByStem(a: Path, b: Path)
    requires !IsSecondary(StemOf(a)) && !IsSecondary(StemOf(b))
    ensures DexLess(a, b) <==> LexLess(StemOf(a), StemOf(b))
  {
  }

  /** Two secondary files are in ascending order of their numbers; equal numbers are unordered. */
  lemma SecondaryByNumber(a: Path, b: Path)
    requires IsSecondary(StemOf(a)) && IsSecondary(StemOf(b))
    ensures DexLess(a, b) <==> SuffixNumber(StemOf(a)) < SuffixNumber(StemOf(b))
    ensures SuffixNumber(StemOf(a)) == SuffixNumber(StemOf(b)) ==> !DexLess(a, b) && !DexLess(b, a)
  {
  }

  /** The name of the N-th secondary dex file of a given base name. */
  function SecondaryDexName(base: string, n: nat): Segment {
    base + "-" + Decimal(n) + ".dex"
  }

  /** In `base-digits` the last '-' is the one before the digits. */
  lemma LastDashBeforeDigits(base: string, d: string)
    requires AllDigits(d)
    ensures LastIndexOf(base + "-" + d, '-') == |base|
  {
    var prefix := base + "-";
    DigitsHaveNoDash(prefix, d);
    assert (prefix + d)[|base|] == prefix[|base|] == '-';
    LastIndexOfAt(prefix + d, '-', |base|);
  }

  lemma DigitsHaveNoDash(prefix: string, d: string)
    requires AllDigits(d)
    ensures forall j :: |prefix| <= j < |prefix + d| ==> (prefix + d)[j] != '-'
  {
    forall j | |prefix| <= j < |prefix + d| ensures (prefix + d)[j] != '-' {
      assert (prefix + d)[j] == d[j - |prefix|];
    }
  }

  lemma StemOfDex(dir: Path, stem: string)
    ensures StemOf(dir + [stem + ".dex"]) == stem
  {
    assert '.' !in ".dex"[1..];
    StemOfJoined(stem, ".dex");
  }

  lemma SecondaryStem(dir: Path, base: string, n: nat)
    ensures StemOf(dir + [SecondaryDexName(base, n)]) == base + "-" + Decimal(n)
    ensures IsSecondary(StemOf(dir + [SecondaryDexName(base, n)]))
    ensures SuffixNumber(StemOf(dir + [SecondaryDexName(base, n)])) == n
  {
    var stem := base + "-" + Decimal(n);
    StemOfDex(dir, stem);
    LastDashBeforeDigits(base, Decimal(n));
    assert SuffixOf(stem) == Decimal(n);
    AtoiOfDecimal(n);
  }

  /** `secondary-M.dex` loads before `secondary-N.dex` exactly when M < N, however wide the numerals. */
  lemma SecondaryFilesByNumber(dir: Path, base: string, m: nat, n: nat)
    ensures DexLess(dir + [SecondaryDexName(base, m)], dir + [SecondaryDexName(base, n)]) <==> m < n
  {
    SecondaryStem(dir, base, m);
    SecondaryStem(dir, base, n);
  }

  // ---------------------------------------------------------------------
  // Strict weak ordering, as std::sort requires

  lemma DexLessIrreflexive(a: Path)
    ensures !DexLess(a, a)
  {
    LexLessIrreflexive(StemOf(a));
  }

  lemma DexLessTransitive(a: Path, b: Path, c: Path)
    requires DexLess(a, b) && DexLess(b, c)
    ensures DexLess(a, c)
  {
    if !IsSecondary(StemOf(a)) && !IsSecondary(StemOf(b)) && !IsSecondary(StemOf(c)) {
      LexLessTransitive(StemOf(a), StemOf(b), StemOf(c));
    }
  }

  /** Being unordered is transitive: if neither a before b nor b before c, then not a before c. */
  lemma DexLessNegativelyTransitive(a: Path, b: Path, c: Path)
    requires !DexLess(a, b) && !DexLess(b, c)
    ensures !DexLess(a, c)
  {
    var aStem, bStem, cStem := StemOf(a), StemOf(b), StemOf(c);
    if !IsSecondary(aStem) && !IsSecondary(bStem) && !IsSecondary(cStem) {
      // Both steps go down or stay: c is at most b, b at most a.
      if aStem != bStem {
        LexLessConnected(aStem, bStem);
      }
      if bStem != cStem {
        LexLessConnected(bStem, cStem);
      }
      if aStem != bStem && bStem != cStem {
        LexLessTransitive(cStem, bStem, aStem);
      }
      if cStem == aStem {
        LexLessIrreflexive(aStem);
      } else {
        LexLessAsymmetric(cStem, aStem);
      }
    }
  }

  lemma DexLessAsymmetric(a: Path, b: Path)
    requires DexLess(a, b)
    ensures !DexLess(b, a)
  {
    if DexLess(b, a) {
      DexLessTransitive(a, b, a);
      DexLessIrreflexive(a);
    }
  }

  /** The comparator meets std::sort's requirement on every pair of paths. */
  lemma DexLessIsStrictWeakOrder()
    ensures IsStrictWeakOrder(DexLess)
  {
    forall a: Path ensures !DexLess(a, a) {
      DexLessIrreflexive(a);
    }
    forall a: Path, b: Path, c: Path | DexLess(a, b) && DexLess(b, c) ensures DexLess(a, c) {
      DexLessTransitive(a, b, c);
    }
    forall a: Path, b: Path, c: Path | !DexLess(a, b) && !DexLess(b, c) ensures !DexLess(a, c) {
      DexLessNegativelyTransitive(a, b, c);
    }
  }

  /** No file of `s` comes before one earlier in `s`. */
  predicate Sorted(s: seq<Path>) {
    SortedBy(s, DexLess)
  }

  /** `classes.dex` loads before every secondary file named by the convention. */
  lemma ClassesBeforeSecondary(dir: Path, base: string, n: nat)
    ensures DexLess(dir + ["classes.dex"], dir + [SecondaryDexName(base, n)])
  {
    ClassesStem(dir);
    SecondaryStem(dir, base, n);
  }

  /** The stem of `classes.dex` is `classes`, a primary stem. */
  lemma ClassesStem(dir: Path)
    ensures StemOf(dir + ["classes.dex"]) == "classes" && !IsSecondary("classes")
  {
    assert !IsSecondary("classes") by {
      assert '-' !in "classes";
    }
    assert "classes" + ".dex" == "classes.dex";
    StemOfDex(dir, "classes");
  }

  /** In any directory, the usual file names load as classes, secondary-1, secondary-2, secondary-10. */
  lemma UsualNamesOrder(dir: Path)
    ensures
      var s := [dir + ["classes.dex"], dir + [SecondaryDexName("secondary", 1)],
                dir + [SecondaryDexName("secondary", 2)], dir + [SecondaryDexName("secondary", 10)]];
      StrictlyOrderedBy(s, DexLess) && Sorted(s)
  {
    var primary, first, second, tenth := dir + ["classes.dex"], dir + [SecondaryDexName("secondary", 1)],
      dir + [SecondaryDexName("secondary", 2)], dir + [SecondaryDexName("secondary", 10)];
    ClassesBeforeSecondary(dir, "secondary", 1);
    SecondaryFilesByNumber(dir, "secondary", 1, 2);
    SecondaryFilesByNumber(dir, "secondary", 2, 10);
    DexLessIsStrictWeakOrder();
    ChainOfFour(primary, first, second, tenth, DexLess);
  }

  /**
   * However the four usual files are discovered, sorting them can only give
   * classes, secondary-1, secondary-2, secondary-10: no two of them are
   * unordered, so their sorted arrangement is unique.
   */
  lemma UsualNamesAreTheOnlyOrder(dir: Path, order: seq<Path>)
    requires Sorted(order)
    requires multiset(order) == multiset([dir + ["classes.dex"], dir + [SecondaryDexName("secondary", 1)],
                                          dir + [SecondaryDexName("secondary", 2)], dir + [SecondaryDexName("secondary", 10)]])
    ensures order == [dir + ["classes.dex"], dir + [SecondaryDexName("secondary", 1)],
                      dir + [SecondaryDexName("secondary", 2)], dir + [SecondaryDexName("secondary", 10)]]
  {
    var usual := [dir + ["classes.dex"], dir + [SecondaryDexName("secondary", 1)],
                  dir + [SecondaryDexName("secondary", 2)], dir + [SecondaryDexName("secondary", 10)]];
    UsualNamesOrder(dir);
    DexLessIsStrictWeakOrder();
    SortedStrictUnique(usual, order, DexLess);
  }

  // ---------------------------------------------------------------------
  // The comparator as written at Tool.cpp line 38

  /** `strcmp` as C libraries that return the difference of the first differing characters compute it. */
  function Strcmp(a: string, b: string): int {
    if a == [] && b == [] then 0
    else if a == [] then -(b[0] as int)
    else if b == [] then a[0] as int
    else if a[0] != b[0] then a[0] as int - b[0] as int
    else Strcmp(a[1..], b[1..])
  }

  /**
   * On strings without a NUL character, `strcmp` is negative exactly when the
   * first string comes lexicographically first, and zero exactly when the two
   * are equal.
   */
  lemma {:induction false} StrcmpSign(a: string, b: string)
    requires '\0' !in a && '\0' !in b
    ensures Strcmp(a, b) < 0 <==> LexLess(a, b)
    ensures Strcmp(a, b) == 0 <==> a == b
    decreases |a|
  {
    if a != [] && b != [] && a[0] == b[0] {
      StrcmpSign(a[1..], b[1..]);
      assert a == [a[0]] + a[1..] && b == [b[0]] + b[1..];
    } else if a != [] && b != [] {
      assert a[0] != '\0' && b[0] != '\0';
    } else if a == [] && b != [] {
      assert b[0] != '\0';
    } else if a != [] {
      assert a[0] != '\0';
    }
  }

  /** `dex_comparator` with its branch for two primary stems as written: `strcmp(...) > 1`. */
  predicate DexLessAsWritten(a: Path, b: Path) {
    var aStem, bStem := StemOf(a), StemOf(b);
    var aDashed, bDashed := IsSecondary(aStem), IsSecondary(bStem);
    if !aDashed && bDashed then true
    else if aDashed && !bDashed then false
    else if !aDashed && !bDashed then Strcmp(aStem, bStem) > 1
    else SuffixNumber(bStem) > SuffixNumber(aStem)
  }

  /**
   * The correction changes only the branch for two stems without '-': when
   * either stem has one, both comparators agree, so a directory holding
   * `classes.dex` and `secondary-N.dex` files sorts the same either way.
   */
  lemma AsWrittenAgreesUnlessBothPrimary(a: Path, b: Path)
    requires IsSecondary(StemOf(a)) || IsSecondary(StemOf(b))
    ensures DexLessAsWritten(a, b) == DexLess(a, b)
  {
  }

  /**
   * As written, the comparator is not a strict weak ordering, so std::sort
   * may misbehave: with the stems `a`, `b`, `c`, it puts `c` before `a` (the
   * reverse of the lexicographic order) while leaving `c`/`b` and `b`/`a`
   * unordered, so being unordered is not transitive.
   */
  lemma AsWrittenNotStrictWeak()
    ensures !IsStrictWeakOrder(DexLessAsWritten)
  {
    var a, b, c := ["a" + ".dex"], ["b" + ".dex"], ["c" + ".dex"];
    LetterStem("a");
    LetterStem("b");
    LetterStem("c");
    AsWrittenOnStems(a, b, c);
    IncomparabilityNotTransitive(DexLessAsWritten, c, b, a);
  }

  /** The stem of the one-letter name `x.dex` is `x`, which has no '-'. */
  lemma LetterStem(x: string)
    requires |x| == 1 && x[0] != '.' && x[0] != '-'
    ensures StemOf([x + ".dex"]) == x && !IsSecondary(x)
  {
    assert '.' !in ".dex"[1..];
    StemOfJoined(x, ".dex");
  }

  /**
   * Files with the stems `a`, `b`, `c`: as written, `c` comes before `a` but
   * not after it, and `c`/`b` and `b`/`a` are unordered; the corrected
   * comparator orders them a, b, c.
   */
  lemma AsWrittenOnStems(a: Path, b: Path, c: Path)
    requires StemOf(a) == "a" && StemOf(b) == "b" && StemOf(c) == "c"
    requires !IsSecondary("a") && !IsSecondary("b") && !IsSecondary("c")
    ensures DexLessAsWritten(c, a) && !DexLessAsWritten(a, c)
    ensures !DexLessAsWritten(c, b) && !DexLessAsWritten(b, a)
    ensures DexLess(a, b) && DexLess(b, c) && DexLess(a, c)
  {
    assert Strcmp("c", "a") == 2 && Strcmp("a", "c") == -2;
    assert Strcmp("c", "b") == 1 && Strcmp("b", "a") == 1;
  }
}
