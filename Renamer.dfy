/**
 * `FileRenamer`: the file name built from a receipt record, the `_1`, `_2`
 * suffix that avoids overwriting an existing file, and the rename itself with
 * its path traversal guard.
 */
module Renamer {
  import opened Wrappers
  import opened PyText
  import opened Json
  import opened Models
  import opened Paths

  const PlaceholderUnknown := "UNKNOWN"
  const PlaceholderReview := "REVIEW"
  const MaxFieldLength: nat := 30
  const MaxConflictAttempts: nat := 1000

  // ---------------------------------------------------------------------------
  // sanitize
  // ---------------------------------------------------------------------------

  /** What `re.sub(r"[^\w\s]", "", text)` keeps. */
  predicate KeptBySanitize(c: char) { IsWordChar(c) || IsSpace(c) }

  /** `"".join(word.capitalize() for word in words)`. */
  function JoinCapitalized(words: seq<string>): string
  {
    if words == [] then [] else Capitalize(words[0]) + JoinCapitalized(words[1..])
  }

  /**
   * `FileRenamer.sanitize`: `None` and the empty text stand for a falsy
   * argument. The result is never empty and never longer than `maxLength`
   * unless it is the placeholder.
   */
  function Sanitize(text: Option<string>, maxLength: nat): (r: string)
    ensures text.None? || text == Some("") ==> r == PlaceholderUnknown
    ensures r == PlaceholderUnknown || 1 <= |r| <= maxLength
  {
    if text.None? || text.value == "" then PlaceholderUnknown
    else
      var camel := CamelWords(text.value);
      var cut := if |camel| > maxLength then camel[..maxLength] else camel;
      if cut == "" then PlaceholderUnknown else cut
  }

  lemma LowerAllAppend(a: string, b: string)
    ensures LowerAll(a + b) == LowerAll(a) + LowerAll(b)
  {
  }

  lemma {:induction false} LowerJoinCapitalized(words: seq<string>)
    ensures LowerAll(JoinCapitalized(words)) == LowerAll(Join(words))
  {
    if words != [] {
      LowerJoinCapitalized(words[1..]);
      LowerAllAppend(Capitalize(words[0]), JoinCapitalized(words[1..]));
      LowerAllAppend(words[0], Join(words[1..]));
      if words[0] != [] {
        LowerAllAppend([Upper(words[0][0])], LowerAll(words[0][1..]));
        LowerAllAppend([words[0][0]], words[0][1..]);
        assert words[0] == [words[0][0]] + words[0][1..];
      }
    }
  }

  lemma JoinStartsWithFirstWord(words: seq<string>)
    requires words != [] && words[0] != []
    ensures Join(words) != [] && Join(words)[0] == words[0][0]
    ensures JoinCapitalized(words)[0] == Upper(words[0][0])
  {
  }

  /** Lower-casing commutes with taking a prefix. */
  lemma LowerAllPrefix(a: string, n: nat)
    requires n <= |a|
    ensures LowerAll(a[..n]) == LowerAll(a)[..n]
  {
  }

  /** A text whose lower-cased form is made of word characters is itself. */
  lemma WordCharsByLowerCase(a: string, b: string)
    requires LowerAll(a) == LowerAll(b)
    requires forall k :: 0 <= k < |b| ==> IsWordChar(b[k])
    ensures forall k :: 0 <= k < |a| ==> IsWordChar(a[k])
  {
    forall k | 0 <= k < |a|
      ensures IsWordChar(a[k])
    {
      assert Lower(a[k]) == LowerAll(a)[k] == LowerAll(b)[k] == Lower(b[k]);
    }
  }

  /** The camel-cased words of `text` before the cut. */
  function CamelWords(text: string): string
  {
    JoinCapitalized(SplitWs(Filter(KeptBySanitize, text)))
  }

  /**
   * Before the cut, the text differs from the word characters of `text`
   * only in case, and starts with the first of them in upper case.
   */
  lemma {:induction false} CamelWordsKeepWordChars(text: string)
    ensures var w := Filter(IsWordChar, text);
      && LowerAll(CamelWords(text)) == LowerAll(w)
      && |CamelWords(text)| == |w|
      && (w != [] ==> CamelWords(text)[0] == Upper(w[0]))
  {
    var w := Filter(IsWordChar, text);
    var kept := Filter(KeptBySanitize, text);
    var words := SplitWs(kept);
    JoinSplitWs(kept);
    FilterTwice(KeptBySanitize, NotSpace, IsWordChar, text);
    assert Join(words) == w;
    LowerJoinCapitalized(words);
    assert |LowerAll(CamelWords(text))| == |LowerAll(w)|;
    if w != [] {
      assert words != [];
      JoinStartsWithFirstWord(words);
    }
  }

  /**
   * What `sanitize` keeps of a non-empty text: its word characters, with the
   * spaces between them gone, cut to `maxLength`, where only the case of a
   * letter may change and the first one is upper case. When no word character
   * survives, or `maxLength` is 0, the result is the placeholder.
   */
  lemma {:induction false} SanitizeKeepsWordCharacters(text: string, maxLength: nat)
    requires text != ""
    ensures var w := Filter(IsWordChar, text);
      var r := Sanitize(Some(text), maxLength);
      var n := if |w| < maxLength then |w| else maxLength;
      && (n == 0 ==> r == PlaceholderUnknown)
      && (n > 0 ==>
            |r| == n
            && LowerAll(r) == LowerAll(w[..n])
            && r[0] == Upper(w[0])
            && forall k :: 0 <= k < |r| ==> IsWordChar(r[k]))
  {
    var w := Filter(IsWordChar, text);
    var camel := CamelWords(text);
    CamelWordsKeepWordChars(text);
    var n := if |w| < maxLength then |w| else maxLength;
    var cut := camel[..n];
    assert Sanitize(Some(text), maxLength) == if cut == "" then PlaceholderUnknown else cut;
    LowerAllPrefix(camel, n);
    LowerAllPrefix(w, n);
    if n > 0 {
      WordCharsByLowerCase(cut, w[..n]);
    }
  }

  predicate IsWord(w: string)
  {
    w != [] && forall k :: 0 <= k < |w| ==> IsWordChar(w[k])
  }

  lemma LengthJoinCapitalized(words: seq<string>)
    ensures |JoinCapitalized(words)| == |Join(words)|
  {
    LowerJoinCapitalized(words);
    assert |LowerAll(JoinCapitalized(words))| == |LowerAll(Join(words))|;
  }

  /**
   * `sanitize` camel-cases: a text that the character filter turns into
   * words separated by single spaces yields the words capitalized and
   * concatenated, when they fit in `maxLength`.
   */
  lemma {:induction false} SanitizeCamelCase(text: string, words: seq<string>, maxLength: nat)
    requires text != ""
    requires words != [] && forall i :: 0 <= i < |words| ==> IsWord(words[i])
    requires Filter(KeptBySanitize, text) == Unwords(words)
    requires |Join(words)| <= maxLength
    ensures Sanitize(Some(text), maxLength) == JoinCapitalized(words)
  {
    forall i | 0 <= i < |words|
      ensures words[i] != [] && NoSpace(words[i])
    {
      assert IsWord(words[i]);
    }
    SplitUnwords(words);
    LengthJoinCapitalized(words);
    assert JoinCapitalized(words) != [] by {
      assert words[0] != [];
      JoinStartsWithFirstWord(words);
    }
  }

  /** A word already in capitalized form is left as it is. */
  lemma CapitalizedWord(w: string)
    requires w != [] && !IsLower(w[0])
    requires forall k :: 1 <= k < |w| ==> !IsUpper(w[k])
    ensures Capitalize(w) == w
  {
    assert LowerAll(w[1..]) == w[1..];
  }

  /** A capital letter followed by lower-case letters is a word that capitalizes to itself. */
  lemma TitleWord(w: string)
    requires w != [] && IsUpper(w[0])
    requires forall k :: 1 <= k < |w| ==> IsLower(w[k])
    ensures IsWord(w) && Capitalize(w) == w
  {
    CapitalizedWord(w);
  }

  lemma JoinCapitalizedTwo(a: string, b: string)
    ensures JoinCapitalized([a, b]) == Capitalize(a) + Capitalize(b)
  {
    assert [a, b][1..] == [b];
    assert [b][1..] == [];
    assert JoinCapitalized([b]) == Capitalize(b);
  }

  lemma JoinCapitalizedThree(a: string, b: string, c: string)
    ensures JoinCapitalized([a, b, c]) == Capitalize(a) + (Capitalize(b) + Capitalize(c))
  {
    var w := [a, b, c];
    assert w[0] == a && w[1..] == [b, c];
    assert JoinCapitalized(w) == Capitalize(a) + JoinCapitalized([b, c]);
    JoinCapitalizedTwo(b, c);
  }

  /** The facts about the list `[a, b]` that `SanitizeCamelCase` asks for. */
  lemma TwoWordsShape(words: seq<string>, a: string, b: string)
    requires words == [a, b] && IsWord(a) && IsWord(b)
    ensures forall i :: 0 <= i < |words| ==> IsWord(words[i])
    ensures Unwords(words) == a + " " + b
    ensures |Join(words)| == |a| + |b|
    ensures JoinCapitalized(words) == Capitalize(a) + Capitalize(b)
  {
    assert words[0] == a && words[1] == b;
    assert words[1..] == [b] && [b][1..] == [];
    assert Unwords(words) == a + " " + Unwords([b]);
    assert Join(words) == a + Join([b]);
    assert Join([b]) == b + Join([]);
    JoinCapitalizedTwo(a, b);
  }

  /** The facts about the list `[a, b, c]` that `SanitizeCamelCase` asks for. */
  lemma ThreeWordsShape(words: seq<string>, a: string, b: string, c: string)
    requires words == [a, b, c] && IsWord(a) && IsWord(b) && IsWord(c)
    ensures forall i :: 0 <= i < |words| ==> IsWord(words[i])
    ensures Unwords(words) == a + " " + (b + " " + c)
    ensures |Join(words)| == |a| + |b| + |c|
    ensures JoinCapitalized(words) == Capitalize(a) + (Capitalize(b) + Capitalize(c))
  {
    assert words[1..] == [b, c];
    TwoWordsShape([b, c], b, c);
    assert Join(words) == a + Join([b, c]);
    JoinCapitalizedThree(a, b, c);
  }

  /** `sanitize` of a text that filters to two words separated by a space. */
  lemma SanitizeTwoWords(text: string, a: string, b: string)
    requires text != "" && IsWord(a) && IsWord(b)
    requires Filter(KeptBySanitize, text) == a + " " + b
    requires |a| + |b| <= MaxFieldLength
    ensures Sanitize(Some(text), MaxFieldLength) == Capitalize(a) + Capitalize(b)
  {
    var words := [a, b];
    TwoWordsShape(words, a, b);
    SanitizeCamelCase(text, words, MaxFieldLength);
  }

  /** `sanitize` of a text that filters to three words separated by spaces. */
  lemma SanitizeThreeWords(text: string, a: string, b: string, c: string)
    requires text != "" && IsWord(a) && IsWord(b) && IsWord(c)
    requires Filter(KeptBySanitize, text) == a + " " + (b + " " + c)
    requires |a| + |b| + |c| <= MaxFieldLength
    ensures Sanitize(Some(text), MaxFieldLength) == Capitalize(a) + (Capitalize(b) + Capitalize(c))
  {
    var words := [a, b, c];
    ThreeWordsShape(words, a, b, c);
    SanitizeCamelCase(text, words, MaxFieldLength);
  }

  /** Two words joined by a space pass the character filter of `sanitize` untouched. */
  lemma TwoWordsFiltered(a: string, b: string)
    requires IsWord(a) && IsWord(b)
    ensures Filter(KeptBySanitize, a + " " + b) == a + " " + b
  {
    var t := a + " " + b;
    forall k | 0 <= k < |t|
      ensures KeptBySanitize(t[k])
    {
      if k < |a| {
        assert t[k] == a[k];
      } else if k > |a| {
        assert t[k] == b[k - |a| - 1];
      }
    }
    FilterKeepsAll(KeptBySanitize, t);
  }

  lemma JohnDoeWords(text: string, a: string, b: string)
    requires text == "John Doe" && a == "John" && b == "Doe"
    ensures text != "" && IsWord(a) && IsWord(b) && |a| + |b| <= MaxFieldLength
    ensures Filter(KeptBySanitize, text) == a + " " + b
    ensures Capitalize(a) + Capitalize(b) == "JohnDoe"
  {
    assert text == a + " " + b;
    TitleWord(a);
    TitleWord(b);
    TwoWordsFiltered(a, b);
  }

  /** `sanitize("John Doe")` is `"JohnDoe"`. */
  lemma SanitizeJohnDoe(text: string, a: string, b: string)
    requires text == "John Doe" && a == "John" && b == "Doe"
    ensures Sanitize(Some(text), MaxFieldLength) == "JohnDoe"
  {
    JohnDoeWords(text, a, b);
    SanitizeTwoWords(text, a, b);
  }

  /** Filtering a kept piece followed by a dropped one keeps the first piece. */
  lemma FilterKeepDrop(p: char -> bool, a: string, b: string)
    requires forall k :: 0 <= k < |a| ==> p(a[k])
    requires forall k :: 0 <= k < |b| ==> !p(b[k])
    ensures Filter(p, a + b) == a
  {
    FilterAppend(p, a, b);
    FilterKeepsAll(p, a);
    FilterDropsAll(p, b);
  }

  /** Filtering three kept pieces, each followed by a dropped one, keeps exactly the kept pieces. */
  lemma FilterAlternating(p: char -> bool, a: string, b: string, c: string, d: string, e: string, f: string)
    requires forall k :: 0 <= k < |a| ==> p(a[k])
    requires forall k :: 0 <= k < |c| ==> p(c[k])
    requires forall k :: 0 <= k < |e| ==> p(e[k])
    requires forall k :: 0 <= k < |b| ==> !p(b[k])
    requires forall k :: 0 <= k < |d| ==> !p(d[k])
    requires forall k :: 0 <= k < |f| ==> !p(f[k])
    ensures Filter(p, (a + b) + (c + d) + (e + f)) == a + c + e
  {
    FilterAppend(p, (a + b) + (c + d), e + f);
    FilterAppend(p, a + b, c + d);
    FilterKeepDrop(p, a, b);
    FilterKeepDrop(p, c, d);
    FilterKeepDrop(p, e, f);
  }

  lemma DrSmithPieces(text: string)
    requires text == "Dr. Smith's Clinic!"
    ensures text == ("Dr" + ".") + (" Smith" + "'") + ("s Clinic" + "!")
  {
  }

  lemma DrSmithJoined(a: string, b: string, c: string)
    requires a == "Dr" && b == "Smiths" && c == "Clinic"
    ensures "Dr" + " Smith" + "s Clinic" == a + " " + (b + " " + c)
  {
  }

  lemma DrSmithFiltered(text: string, a: string, b: string, c: string)
    requires text == "Dr. Smith's Clinic!"
    requires a == "Dr" && b == "Smiths" && c == "Clinic"
    ensures Filter(KeptBySanitize, text) == a + " " + (b + " " + c)
  {
    DrSmithPieces(text);
    FilterAlternating(KeptBySanitize, "Dr", ".", " Smith", "'", "s Clinic", "!");
    DrSmithJoined(a, b, c);
  }

  lemma DrSmithCapitalized(a: string, b: string, c: string)
    requires a == "Dr" && b == "Smiths" && c == "Clinic"
    ensures IsWord(a) && Capitalize(a) == a && IsWord(b) && Capitalize(b) == b
    ensures IsWord(c) && Capitalize(c) == c
  {
    TitleWord(a);
    TitleWord(b);
    TitleWord(c);
  }

  lemma DrSmithWords(text: string, a: string, b: string, c: string)
    requires text == "Dr. Smith's Clinic!"
    requires a == "Dr" && b == "Smiths" && c == "Clinic"
    ensures text != "" && IsWord(a) && IsWord(b) && IsWord(c) && |a| + |b| + |c| <= MaxFieldLength
    ensures Filter(KeptBySanitize, text) == a + " " + (b + " " + c)
    ensures Capitalize(a) + (Capitalize(b) + Capitalize(c)) == "DrSmithsClinic"
  {
    DrSmithFiltered(text, a, b, c);
    DrSmithCapitalized(a, b, c);
  }

  /** `sanitize("Dr. Smith's Clinic!")` is `"DrSmithsClinic"`: punctuation goes, the letters stay. */
  lemma SanitizeDrSmith(text: string, a: string, b: string, c: string)
    requires text == "Dr. Smith's Clinic!"
    requires a == "Dr" && b == "Smiths" && c == "Clinic"
    ensures Sanitize(Some(text), MaxFieldLength) == "DrSmithsClinic"
  {
    DrSmithWords(text, a, b, c);
    SanitizeThreeWords(text, a, b, c);
  }

  lemma CvsCapitalized(a: string)
    requires a == "CVS"
    ensures IsWord(a) && Capitalize(a) == "Cvs"
  {
    assert a[1..] == "VS";
    assert LowerAll("VS") == "vs";
  }

  lemma PharmacyWord(b: string)
    requires b == "Pharmacy"
    ensures IsWord(b) && Capitalize(b) == b
  {
    TitleWord(b);
  }

  /** `sanitize("CVS Pharmacy")` is `"CvsPharmacy"`: the letters after the first of a word become lower case. */
  lemma SanitizeCvsPharmacy(text: string, a: string, b: string)
    requires text == "CVS Pharmacy" && a == "CVS" && b == "Pharmacy"
    ensures Sanitize(Some(text), MaxFieldLength) == "CvsPharmacy"
  {
    CvsPharmacyWords(text, a, b);
    SanitizeTwoWords(text, a, b);
  }

  lemma CvsPharmacyWords(text: string, a: string, b: string)
    requires text == "CVS Pharmacy" && a == "CVS" && b == "Pharmacy"
    ensures text != "" && IsWord(a) && IsWord(b) && |a| + |b| <= MaxFieldLength
    ensures Filter(KeptBySanitize, text) == a + " " + b
    ensures Capitalize(a) + Capitalize(b) == "CvsPharmacy"
  {
    assert text == a + " " + b;
    CvsCapitalized(a);
    PharmacyWord(b);
    TwoWordsFiltered(a, b);
  }

  /** Fifty letters are cut to the 30 of `MAX_FIELD_LENGTH`. */
  lemma SanitizeTruncatesLongName(text: string)
    requires |text| == 50 && forall k :: 0 <= k < 50 ==> text[k] == 'A'
    ensures |Sanitize(Some(text), MaxFieldLength)| == 30
  {
    FilterKeepsAll(IsWordChar, text);
    SanitizeKeepsWordCharacters(text, MaxFieldLength);
  }

  /** A text of punctuation alone has no word character left, so `sanitize` falls back to the placeholder. */
  lemma SanitizePunctuationOnly(text: string)
    requires text == "!!!"
    ensures Sanitize(Some(text), MaxFieldLength) == PlaceholderUnknown
  {
    NoWordCharacters(text);
    SanitizeKeepsWordCharacters(text, MaxFieldLength);
  }

  lemma NoWordCharacters(text: string)
    requires text == "!!!"
    ensures text != "" && Filter(IsWordChar, text) == []
  {
    FilterDropsAll(IsWordChar, text);
  }

  // ---------------------------------------------------------------------------
  // format_amount
  // ---------------------------------------------------------------------------

  predicate IsWhole(x: real) { x == x.Floor as real }

  /** The integer nearest to `y`, ties going to the even neighbour. */
  function RoundHalfEven(y: real): (n: int)
    ensures -0.5 <= y - n as real <= 0.5
    ensures y - n as real == 0.5 || y - n as real == -0.5 ==> n % 2 == 0
  {
    var f := y.Floor;
    var d := y - f as real;
    if d < 0.5 then f
    else if d > 0.5 then f + 1
    else if f % 2 == 0 then f
    else f + 1
  }

  function Abs(x: real): real { if x < 0.0 then -x else x }

  /** The two digits of `c % 100`. */
  function Cents(c: nat): (r: string)
    ensures |r| == 2 && IsDigit(r[0]) && IsDigit(r[1])
  {
    [DigitChar(c % 100 / 10), DigitChar(c % 10)]
  }

  /**
   * `format(x, ".2f")`: a minus sign exactly for a negative amount, then a
   * number with two decimals that reads back as the magnitude rounded half
   * to even at cents.
   */
  function Fixed2(x: real): (r: string)
    ensures |r| >= 4 && r[|r| - 3] == '.' && IsDigit(r[|r| - 2]) && IsDigit(r[|r| - 1])
    ensures forall k :: 0 <= k < |r| ==> r[k] == '-' || r[k] == '.' || IsDigit(r[k])
    ensures r[0] == '-' <==> x < 0.0
    ensures ParseDecimal(if x < 0.0 then r[1..] else r) == Some(RoundHalfEven(Abs(x) * 100.0) as real / 100.0)
  {
    var c := RoundHalfEven(Abs(x) * 100.0);
    var u := NatStr(c / 100) + "." + Cents(c);
    UnsignedFixed2(c);
    if x < 0.0 then
      SignedFixed2(u);
      "-" + u
    else u
  }

  /** The unsigned text of `c` cents: digits, a dot and two digits, reading back as `c / 100`. */
  lemma UnsignedFixed2(c: nat)
    ensures var u := NatStr(c / 100) + "." + Cents(c);
      && |u| >= 4 && u[|u| - 3] == '.' && IsDigit(u[|u| - 2]) && IsDigit(u[|u| - 1])
      && (forall k :: 0 <= k < |u| ==> u[k] == '.' || IsDigit(u[k]))
      && IsDigit(u[0])
      && ParseDecimal(u) == Some(c as real / 100.0)
  {
    var w, d := NatStr(c / 100), Cents(c);
    var u := w + "." + d;
    assert forall k :: 0 <= k < |w| ==> u[k] == w[k];
    assert forall k :: |w| < k < |u| ==> u[k] == d[k - |w| - 1];
    ReadBackParts(c / 100, c);
    CentsSplit(c);
  }

  /** A minus sign in front of an unsigned number. */
  lemma SignedFixed2(u: string)
    requires |u| >= 4 && u[|u| - 3] == '.' && IsDigit(u[|u| - 2]) && IsDigit(u[|u| - 1])
    requires forall k :: 0 <= k < |u| ==> u[k] == '.' || IsDigit(u[k])
    ensures var r := "-" + u;
      && |r| >= 4 && r[|r| - 3] == '.' && IsDigit(r[|r| - 2]) && IsDigit(r[|r| - 1])
      && (forall k :: 0 <= k < |r| ==> r[k] == '-' || r[k] == '.' || IsDigit(r[k]))
      && r[0] == '-' && r[1..] == u
  {
    var r := "-" + u;
    assert forall k :: 1 <= k < |r| ==> r[k] == u[k - 1];
  }

  /**
   * `FileRenamer.format_amount`: the placeholder without an amount, the
   * currency followed by the integer for a whole amount, and followed by two
   * decimals otherwise.
   */
  function FormatAmount(amount: Option<real>, currency: string): (r: string)
    ensures amount.None? ==> r == PlaceholderUnknown
    ensures amount.Some? ==> |r| > |currency| && r[..|currency|] == currency
    ensures amount.Some? ==> (r[|currency|] == '-' <==> amount.value < 0.0)
    ensures amount.Some? && IsWhole(amount.value) ==>
      forall k :: |currency| <= k < |r| ==> r[k] != '.'
    ensures amount.Some? && !IsWhole(amount.value) ==>
      |r| >= |currency| + 4 && r[|r| - 3] == '.' && IsDigit(r[|r| - 2]) && IsDigit(r[|r| - 1])
  {
    match amount
    case None => PlaceholderUnknown
    case Some(x) =>
      if IsWhole(x) then currency + IntStr(x.Floor) else currency + Fixed2(x)
  }

  lemma TwoDigitsValue(a: nat, b: nat)
    requires a < 10 && b < 10
    ensures DigitsValue([DigitChar(a), DigitChar(b)]) == 10 * a + b
  {
    var cs := [DigitChar(a), DigitChar(b)];
    assert cs[..1] == [DigitChar(a)];
    assert [DigitChar(a)][..0] == [];
    assert DigitsValue([DigitChar(a)]) == a;
    assert DigitsValue(cs) == DigitsValue(cs[..1]) * 10 + DigitValue(cs[1]);
  }

  lemma ReadBackParts(q: nat, c: nat)
    ensures ParseDecimal(NatStr(q) + "." + Cents(c)) == Some(q as real + (c % 100) as real / 100.0)
  {
    var whole, cents := NatStr(q), Cents(c);
    assert AllDigits(whole) && AllDigits(cents);
    assert DigitsValue(whole) == q by {
      DigitsValueNatStr(q);
    }
    assert DigitsValue(cents) == c % 100 by {
      TwoDigitsValue(c % 100 / 10, c % 10);
    }
    ReadBackDigits(whole, cents, q, c % 100);
  }

  /** Digits, a dot and two digits read back as the whole part plus hundredths. */
  lemma ReadBackDigits(whole: string, cents: string, q: nat, m: nat)
    requires whole != [] && AllDigits(whole) && AllDigits(cents) && |cents| == 2
    requires DigitsValue(whole) == q && DigitsValue(cents) == m
    ensures ParseDecimal(whole + "." + cents) == Some(q as real + m as real / 100.0)
  {
    ParseDotted(whole, cents);
    CentsValue(whole, cents, q, m);
  }

  /** The value of a number written with two decimals. */
  lemma CentsValue(whole: string, cents: string, q: nat, m: nat)
    requires |cents| == 2 && DigitsValue(whole) == q && DigitsValue(cents) == m
    ensures DotValue(whole, cents) == q as real + m as real / 100.0
  {
    assert Pow10(2) == 10 * Pow10(1) == 100;
  }

  /** Cents split into whole units and the rest add up again. */
  lemma CentsSplit(c: nat)
    ensures (c / 100) as real + (c % 100) as real / 100.0 == c as real / 100.0
  {
    var q, m := c / 100, c % 100;
    assert c == 100 * q + m;
    assert c as real == 100.0 * q as real + m as real;
  }

  /**
   * A whole amount reads back exactly: a minus sign for a negative amount,
   * then the digits of its magnitude.
   */
  lemma WholeAmountReadsBack(x: real, currency: string)
    requires IsWhole(x)
    ensures var t := FormatAmount(Some(x), currency)[|currency|..];
      && t != [] && (t[0] == '-' <==> x < 0.0)
      && ParseDecimal(if x < 0.0 then t[1..] else t) == Some(Abs(x))
  {
    var t := IntStr(x.Floor);
    assert FormatAmount(Some(x), currency)[|currency|..] == t;
    var u := if x < 0.0 then t[1..] else t;
    assert AllDigits(u);
    assert forall k :: 0 <= k < |u| ==> u[k] != '.';
    assert DigitsValue(u) as real == Abs(x);
  }

  /**
   * Any other amount reads back as its magnitude rounded to cents, after a
   * minus sign for a negative amount.
   */
  lemma FractionReadsBack(x: real, currency: string)
    requires !IsWhole(x)
    ensures var t := FormatAmount(Some(x), currency)[|currency|..];
      && t != [] && (t[0] == '-' <==> x < 0.0)
      && ParseDecimal(if x < 0.0 then t[1..] else t) == Some(RoundHalfEven(Abs(x) * 100.0) as real / 100.0)
  {
    assert FormatAmount(Some(x), currency) == currency + Fixed2(x);
    assert (currency + Fixed2(x))[|currency|..] == Fixed2(x);
  }

  /**
   * The rendered number is a minus sign for a negative amount followed by a
   * number `float` reads back (as `from_json` would) as the magnitude itself
   * when it is whole or has at most two decimals, and otherwise as the
   * magnitude rounded to cents, at most half a cent away.
   */
  lemma FormatAmountReadsBack(x: real, currency: string)
    ensures var t := FormatAmount(Some(x), currency)[|currency|..];
      var v := ParseDecimal(if x < 0.0 then t[1..] else t);
      && t != [] && (t[0] == '-' <==> x < 0.0)
      && v.Some?
      && -0.005 <= v.value - Abs(x) <= 0.005
      && (IsWhole(x * 100.0) ==> v.value == Abs(x))
  {
    if IsWhole(x) {
      WholeAmountReadsBack(x, currency);
    } else {
      FractionReadsBack(x, currency);
      CentsRoundingBound(x);
    }
  }

  /** Rounding the magnitude to cents moves it by at most half a cent, and not at all when it has at most two decimals. */
  lemma CentsRoundingBound(x: real)
    ensures var v := RoundHalfEven(Abs(x) * 100.0) as real / 100.0;
      && -0.005 <= v - Abs(x) <= 0.005
      && (IsWhole(x * 100.0) ==> v == Abs(x))
  {
    var y := Abs(x) * 100.0;
    var c := RoundHalfEven(y);
    assert -0.5 <= y - c as real <= 0.5;
    if IsWhole(x * 100.0) {
      assert IsWhole(y) by {
        if x < 0.0 {
          assert y == -(x * 100.0);
          assert y == (-((x * 100.0).Floor)) as real;
        }
      }
      assert c == y.Floor;
    }
  }

  /** `format_amount(45.99)` is `"USD45.99"`. */
  lemma FormatAmountWithDecimals(x: real, currency: string)
    requires x == 45.99 && currency == "USD"
    ensures FormatAmount(Some(x), currency) == "USD45.99"
  {
    assert x.Floor == 45;
    assert !IsWhole(x);
    assert RoundHalfEven(x * 100.0) == 4599;
    assert NatStr(45) == "45";
    assert Cents(4599) == "99";
  }

  /** A whole amount is written without decimals: `format_amount(100.0)` is `"USD100"`. */
  lemma FormatAmountWholeNumber(x: real, currency: string)
    requires x == 100.0 && currency == "USD"
    ensures FormatAmount(Some(x), currency) == "USD100"
  {
    assert x.Floor == 100;
    assert NatStr(10) == "10";
    assert NatStr(100) == "100";
  }

  /** The currency given replaces the default one: `format_amount(50.0, "SGD")` is `"SGD50"`. */
  lemma FormatAmountOtherCurrency(x: real, currency: string)
    requires x == 50.0 && currency == "SGD"
    ensures FormatAmount(Some(x), currency) == "SGD50"
  {
    assert x.Floor == 50;
    assert NatStr(50) == "50";
  }

  // ---------------------------------------------------------------------------
  // generate_new_name
  // ---------------------------------------------------------------------------

  datatype NameError =
    /** `re.sub` or `re.match` given a value that is not text raises `TypeError`. */
    | TextExpected(field: string)
    /** `int(amount)` given a value that is not a number raises. */
    | NumberExpected
    /** A currency that is a number, list or object: its `str()` is not modelled. */
    | CurrencyNotRendered

  /** What `re.match(r"\d{4}-\d{2}-\d{2}", s)` accepts: the pattern at the start of `s`, anything after. */
  predicate MatchesDatePrefix(s: string)
  {
    && |s| >= 10
    && IsDigit(s[0]) && IsDigit(s[1]) && IsDigit(s[2]) && IsDigit(s[3])
    && s[4] == '-'
    && IsDigit(s[5]) && IsDigit(s[6])
    && s[7] == '-'
    && IsDigit(s[8]) && IsDigit(s[9])
  }

  /** The date part of the name: the date text itself when it starts with a date, else the placeholder. */
  function DatePart(date: JsonValue): (r: Result<string, NameError>)
    ensures r.Ok? && date.JString? && MatchesDatePrefix(date.s) ==> r.value == date.s
    ensures r.Ok? && !(date.JString? && MatchesDatePrefix(date.s)) ==> r.value == PlaceholderReview
    ensures r.Err? <==> Truthy(date) && !date.JString?
  {
    if !Truthy(date) then Ok(PlaceholderReview)
    else if !date.JString? then Err(TextExpected("date"))
    else if MatchesDatePrefix(date.s) then Ok(date.s)
    else Ok(PlaceholderReview)
  }

  /** The argument `sanitize` sees: falsy values as `None`, text as itself. */
  function TextArgument(v: JsonValue, field: string): (r: Result<Option<string>, NameError>)
    ensures r.Err? <==> Truthy(v) && !v.JString?
    ensures r.Ok? && r.value.Some? ==> v == JString(r.value.value)
  {
    if !Truthy(v) then Ok(None)
    else if v.JString? then Ok(Some(v.s))
    else Err(TextExpected(field))
  }

  /** The amount `format_amount` sees: `None`, a number, or a boolean counted as 1 or 0. */
  function AmountArgument(v: JsonValue): (r: Result<Option<real>, NameError>)
    ensures r.Err? <==> !(v.JNull? || v.JNum? || v.JBool?)
    ensures v.JNull? ==> r == Ok(None)
    ensures v.JNum? ==> r == Ok(Some(v.n))
    ensures v.JBool? ==> r == Ok(Some(if v.b then 1.0 else 0.0))
  {
    match v
    case JNull => Ok(None)
    case JNum(x) => Ok(Some(x))
    case JBool(b) => Ok(Some(if b then 1.0 else 0.0))
    case _ => Err(NumberExpected)
  }

  /** The currency as an f-string renders it. */
  function CurrencyText(v: JsonValue): (r: Result<string, NameError>)
    ensures v.JString? ==> r == Ok(v.s)
    ensures r.Err? <==> v.JNum? || v.JArray? || v.JObject?
  {
    match v
    case JString(s) => Ok(s)
    case JNull => Ok("None")
    case JBool(b) => Ok(if b then "True" else "False")
    case _ => Err(CurrencyNotRendered)
  }

  function AmountPart(amount: JsonValue, currency: JsonValue): (r: Result<string, NameError>)
    ensures amount.JNull? ==> r == Ok(PlaceholderUnknown)
    ensures !amount.JNull? ==> (r.Ok? <==> AmountArgument(amount).Ok? && CurrencyText(currency).Ok?)
    ensures !amount.JNull? && r.Ok? ==>
      r.value == FormatAmount(AmountArgument(amount).value, CurrencyText(currency).value)
    ensures amount.JNum? && currency.JString? ==> r == Ok(FormatAmount(Some(amount.n), currency.s))
  {
    var a :- AmountArgument(amount);
    if a.None? then Ok(PlaceholderUnknown)
    else
      var c :- CurrencyText(currency);
      Ok(FormatAmount(a, c))
  }

  /** The record's fields hold values whose conversions in `generate_new_name` do not raise. */
  predicate NameableRecord(data: ReceiptData)
  {
    && (!Truthy(data.date) || data.date.JString?)
    && (!Truthy(data.provider) || data.provider.JString?)
    && (!Truthy(data.patient) || data.patient.JString?)
    && (data.amount.JNull? ||
        ((data.amount.JNum? || data.amount.JBool?) &&
         !(data.currency.JNum? || data.currency.JArray? || data.currency.JObject?)))
  }

  /** The four parts joined by underscores, as `generate_new_name` lays them out. */
  function Layout(date: string, provider: string, patient: string, amount: string, ext: string): (r: string)
    ensures |r| > |date| && r[..|date|] == date && r[|date|] == '_'
    ensures |r| >= |ext| && r[|r| - |ext|..] == ext
  {
    var r := date + "_" + provider + "_" + patient + "_" + amount + ext;
    assert r == date + ("_" + provider + "_" + patient + "_" + amount + ext);
    r
  }

  /**
   * `FileRenamer.generate_new_name`: `date_provider_patient_amount` followed
   * by the extension. The date is kept verbatim exactly when it starts with a
   * `YYYY-MM-DD` date; the name fails exactly when a field holds a value the
   * conversions reject.
   */
  function GenerateNewName(data: ReceiptData, ext: string): (r: Result<string, NameError>)
    ensures r.Ok? <==> NameableRecord(data)
    ensures r.Ok? ==> |r.value| >= |ext| && r.value[|r.value| - |ext|..] == ext
    ensures r.Ok? && data.date.JString? && MatchesDatePrefix(data.date.s) ==>
      |r.value| > |data.date.s| && r.value[..|data.date.s|] == data.date.s && r.value[|data.date.s|] == '_'
    ensures r.Ok? && !(data.date.JString? && MatchesDatePrefix(data.date.s)) ==>
      |r.value| > 7 && r.value[..7] == "REVIEW_"
  {
    var date :- DatePart(data.date);
    var provider :- TextArgument(data.provider, "provider");
    var patient :- TextArgument(data.patient, "patient");
    var amount :- AmountPart(data.amount, data.currency);
    Ok(Layout(date, Sanitize(provider, MaxFieldLength), Sanitize(patient, MaxFieldLength), amount, ext))
  }

  lemma SampleLayout(date: string, provider: string, patient: string, amount: string, ext: string)
    requires date == "2024-01-15" && provider == "CvsPharmacy" && patient == "JohnDoe"
    requires amount == "USD45.99" && ext == ".pdf"
    ensures Layout(date, provider, patient, amount, ext) == "2024-01-15_CvsPharmacy_JohnDoe_USD45.99.pdf"
  {
  }

  /**
   * What `sanitize` makes of the field `v` of a record: the placeholder when
   * no word character is left, else the first of its word characters, up to
   * 30 of them, changed only in case, the first one upper case.
   */
  predicate FieldOf(part: string, v: JsonValue)
  {
    var w := if v.JString? then Filter(IsWordChar, v.s) else [];
    var n := if |w| < MaxFieldLength then |w| else MaxFieldLength;
    && (n == 0 ==> part == PlaceholderUnknown)
    && (n > 0 ==>
          |part| == n
          && LowerAll(part) == LowerAll(w[..n])
          && part[0] == Upper(w[0])
          && forall k :: 0 <= k < |part| ==> IsWordChar(part[k]))
  }

  /** A name part: the placeholder, or 1 to 30 word characters. */
  predicate NameField(part: string)
  {
    part == PlaceholderUnknown || (1 <= |part| <= MaxFieldLength && forall k :: 0 <= k < |part| ==> IsWordChar(part[k]))
  }

  /** The part `sanitize` makes of a text field of a nameable record. */
  lemma SanitizedField(v: JsonValue, field: string)
    requires !Truthy(v) || v.JString?
    ensures TextArgument(v, field).Ok?
    ensures var part := Sanitize(TextArgument(v, field).value, MaxFieldLength);
      FieldOf(part, v) && NameField(part)
  {
    var arg := TextArgument(v, field).value;
    if arg.Some? && arg.value != "" {
      SanitizeKeepsWordCharacters(arg.value, MaxFieldLength);
    } else if v.JString? {
      assert v.s == "";
      assert Filter(IsWordChar, v.s) == [];
    }
  }

  /**
   * The name `generate_new_name` gives every record whose fields convert:
   * the date text or `REVIEW`, the provider and the patient as `sanitize`
   * makes them, and `UNKNOWN` or the amount as `format_amount` writes it,
   * joined by underscores and followed by the extension.
   */
  lemma GeneratedNameFields(data: ReceiptData, ext: string)
    requires NameableRecord(data)
    ensures !data.amount.JNull? ==> AmountArgument(data.amount).Ok? && CurrencyText(data.currency).Ok?
    ensures exists provider, patient ::
      && FieldOf(provider, data.provider) && NameField(provider)
      && FieldOf(patient, data.patient) && NameField(patient)
      && GenerateNewName(data, ext) == Ok(
           (if data.date.JString? && MatchesDatePrefix(data.date.s) then data.date.s else PlaceholderReview)
           + "_" + provider + "_" + patient + "_"
           + (if data.amount.JNull? then PlaceholderUnknown
              else FormatAmount(AmountArgument(data.amount).value, CurrencyText(data.currency).value))
           + ext)
  {
    SanitizedField(data.provider, "provider");
    SanitizedField(data.patient, "patient");
    var provider := Sanitize(TextArgument(data.provider, "provider").value, MaxFieldLength);
    var patient := Sanitize(TextArgument(data.patient, "patient").value, MaxFieldLength);
    assert FieldOf(provider, data.provider) && FieldOf(patient, data.patient);
  }

  lemma SampleParts(data: ReceiptData, date: string, provider: string, patient: string, amount: real)
    requires date == "2024-01-15" && provider == "CVS Pharmacy" && patient == "John Doe"
    requires amount == 45.99
    requires data == ReceiptData(JString(date), JString(provider), JString(patient), JNum(amount), JString("USD"), JBool(true))
    ensures DatePart(data.date) == Ok(date)
    ensures TextArgument(data.provider, "provider") == Ok(Some(provider))
    ensures TextArgument(data.patient, "patient") == Ok(Some(patient))
    ensures AmountPart(data.amount, data.currency) == Ok("USD45.99")
  {
    assert MatchesDatePrefix(date);
    FormatAmountWithDecimals(amount, "USD");
  }

  /** The sample receipt is named `2024-01-15_CvsPharmacy_JohnDoe_USD45.99.pdf`. */
  lemma SampleReceiptName(data: ReceiptData, ext: string, date: string, provider: string, patient: string, amount: real)
    requires date == "2024-01-15" && provider == "CVS Pharmacy" && patient == "John Doe" && ext == ".pdf"
    requires amount == 45.99
    requires data == ReceiptData(JString(date), JString(provider), JString(patient), JNum(amount), JString("USD"), JBool(true))
    ensures GenerateNewName(data, ext) == Ok("2024-01-15_CvsPharmacy_JohnDoe_USD45.99.pdf")
  {
    SampleParts(data, date, provider, patient, amount);
    SanitizeCvsPharmacy(provider, "CVS", "Pharmacy");
    SanitizeJohnDoe(patient, "John", "Doe");
    SampleLayout(date, "CvsPharmacy", "JohnDoe", "USD45.99", ext);
  }

  lemma SanitizeSlashFree(text: Option<string>)
    ensures SlashFree(Sanitize(text, MaxFieldLength))
  {
    if text.Some? && text.value != "" && Sanitize(text, MaxFieldLength) != PlaceholderUnknown {
      SanitizeKeepsWordCharacters(text.value, MaxFieldLength);
    }
  }

  lemma SlashFreeAppend(a: string, b: string)
    requires SlashFree(a) && SlashFree(b)
    ensures SlashFree(a + b)
  {
  }

  lemma FormatAmountSlashFree(x: real, currency: string)
    requires SlashFree(currency)
    ensures SlashFree(FormatAmount(Some(x), currency))
  {
    if IsWhole(x) {
      SlashFreeAppend(currency, IntStr(x.Floor));
    } else {
      assert SlashFree(Fixed2(x));
      SlashFreeAppend(currency, Fixed2(x));
    }
  }

  lemma AmountPartSlashFree(amount: JsonValue, currency: JsonValue)
    requires AmountPart(amount, currency).Ok?
    requires currency.JString? ==> SlashFree(currency.s)
    ensures SlashFree(AmountPart(amount, currency).value)
  {
    if !amount.JNull? {
      var x := AmountArgument(amount).value.value;
      var c := CurrencyText(currency).value;
      assert AmountPart(amount, currency) == Ok(FormatAmount(Some(x), c));
      CurrencyTextSlashFree(currency);
      FormatAmountSlashFree(x, c);
    }
  }

  lemma CurrencyTextSlashFree(currency: JsonValue)
    requires CurrencyText(currency).Ok?
    requires currency.JString? ==> SlashFree(currency.s)
    ensures SlashFree(CurrencyText(currency).value)
  {
    match currency
    case JString(_) =>
    case JNull => assert SlashFree("None");
    case JBool(b) => assert SlashFree("True") && SlashFree("False");
  }

  lemma LayoutSlashFree(date: string, provider: string, patient: string, amount: string, ext: string)
    requires SlashFree(date) && SlashFree(provider) && SlashFree(patient) && SlashFree(amount) && SlashFree(ext)
    ensures SlashFree(Layout(date, provider, patient, amount, ext))
  {
    SlashFreeAppend(date, "_");
    SlashFreeAppend(date + "_", provider);
    SlashFreeAppend(date + "_" + provider, "_");
    SlashFreeAppend(date + "_" + provider + "_", patient);
    SlashFreeAppend(date + "_" + provider + "_" + patient, "_");
    SlashFreeAppend(date + "_" + provider + "_" + patient + "_", amount);
    SlashFreeAppend(date + "_" + provider + "_" + patient + "_" + amount, ext);
  }

  /**
   * A name built from a date and a currency without slashes, and an
   * extension without one, has no slash: sanitized fields and rendered
   * amounts never contain one.
   */
  lemma {:induction false} GeneratedNameSlashFree(data: ReceiptData, ext: string)
    requires GenerateNewName(data, ext).Ok?
    requires data.date.JString? ==> SlashFree(data.date.s)
    requires data.currency.JString? ==> SlashFree(data.currency.s)
    requires SlashFree(ext)
    ensures SlashFree(GenerateNewName(data, ext).value)
  {
    var provider := TextArgument(data.provider, "provider").value;
    var patient := TextArgument(data.patient, "patient").value;
    SanitizeSlashFree(provider);
    SanitizeSlashFree(patient);
    AmountPartSlashFree(data.amount, data.currency);
    LayoutSlashFree(DatePart(data.date).value, Sanitize(provider, MaxFieldLength),
      Sanitize(patient, MaxFieldLength), AmountPart(data.amount, data.currency).value, ext);
  }

  /**
   * The date check looks at the start of the text only: a date followed by
   * a path puts that path into the name.
   */
  lemma DateSuffixReachesName(data: ReceiptData, ext: string)
    requires NameableRecord(data)
    requires data.date == JString("2024-01-15/../../x")
    ensures GenerateNewName(data, ext).Ok?
    ensures GenerateNewName(data, ext).value[10] == '/'
  {
    var s := data.date.s;
    assert s[10] == '/';
    assert MatchesDatePrefix(s);
  }

  // ---------------------------------------------------------------------------
  // resolve_conflict
  // ---------------------------------------------------------------------------

  /** `PurePath.suffix` of a file name: from its last dot, unless the dot is first or last. */
  function Suffix(name: string): (x: string)
    ensures |x| <= |name| && x == name[|name| - |x|..]
    ensures x == [] || (x[0] == '.' && forall k :: 1 <= k < |x| ==> x[k] != '.')
  {
    match RFind(name, '.')
    case None => []
    case Some(i) => if 0 < i < |name| - 1 then name[i..] else []
  }

  /**
   * A name has a suffix exactly when its last dot is neither its first nor
   * its last character.
   */
  lemma SuffixFromLastDot(name: string)
    ensures Suffix(name) != [] <==>
      exists i :: 0 < i < |name| - 1 && name[i] == '.' && forall j :: i < j < |name| ==> name[j] != '.'
  {
    match RFind(name, '.')
    case None =>
    case Some(i) =>
      if Suffix(name) == [] {
        forall i' | 0 < i' < |name| - 1 && name[i'] == '.'
          ensures exists j :: i' < j < |name| && name[j] == '.'
        {
          assert i' != i;
        }
      }
  }

  /** `PurePath.stem`: the name without its suffix. */
  function Stem(name: string): (r: string)
    ensures r + Suffix(name) == name
  {
    match RFind(name, '.')
    case None => name
    case Some(i) => if 0 < i < |name| - 1 then name[..i] else name
  }

  /** The name of the path `directory / filename` (`target.name`). */
  function TargetName(directory: Path, filename: string): string
  {
    var p := JoinPath(directory, filename);
    if p == [] then [] else p[|p| - 1]
  }

  /** `(directory / name).exists()`, looked up as the kernel does. */
  predicate Taken(dirs: map<Path, set<string>>, directory: Path, name: string)
  {
    PathExists(dirs, JoinPath(directory, name))
  }

  /** `f"{stem}_{counter}{ext}"`. */
  function Candidate(name: string, counter: nat): string
  {
    Stem(name) + "_" + NatStr(counter) + Suffix(name)
  }

  /** The directory `dir` lists `name`, or has a subdirectory of that name. */
  predicate EntryTaken(dirs: map<Path, set<string>>, dir: Path, name: string)
  {
    name in EntriesOf(dirs, dir) || dir + [name] in dirs
  }

  /** The probe `resolve_conflict` runs for counter `n`: does `directory / candidate` exist? */
  function Probe(dirs: map<Path, set<string>>, directory: Path, name: string): nat -> bool
  {
    (n: nat) => Taken(dirs, directory, Candidate(name, n))
  }

  /** The probe for counter `n` asks exactly whether `directory / candidate` exists. */
  lemma ProbeTaken(dirs: map<Path, set<string>>, directory: Path, name: string, n: nat)
    ensures Probe(dirs, directory, name)(n) == Taken(dirs, directory, Candidate(name, n))
  {
  }

  /** The first counter from `from` up to the attempt limit whose probe says it is free. */
  function FirstFree(taken: nat -> bool, from: nat): (r: Option<nat>)
    ensures r.Some? ==>
              && from <= r.value <= MaxConflictAttempts
              && !taken(r.value)
              && forall n :: from <= n < r.value ==> taken(n)
    ensures r.None? ==> forall n :: from <= n <= MaxConflictAttempts ==> taken(n)
    decreases MaxConflictAttempts + 1 - from
  {
    if from > MaxConflictAttempts then None
    else if !taken(from) then Some(from)
    else FirstFree(taken, from + 1)
  }

  lemma FirstFreeFound(taken: nat -> bool, from: nat, n: nat)
    requires from <= n <= MaxConflictAttempts
    requires forall m :: from <= m < n ==> taken(m)
    requires !taken(n)
    ensures FirstFree(taken, from) == Some(n)
  {
  }

  lemma FirstFreeNone(taken: nat -> bool, from: nat)
    requires forall m :: from <= m <= MaxConflictAttempts ==> taken(m)
    ensures FirstFree(taken, from) == None
  {
  }

  datatype ConflictError =
    /** `RuntimeError`: every candidate up to the limit exists. */
    | AttemptsExhausted(attempts: nat)

  /**
   * The name `resolve_conflict` settles on: the proposed name when
   * `directory / filename` does not exist, else the candidate with the
   * smallest counter for which `directory / candidate` does not exist, else
   * an error when all `MaxConflictAttempts` candidates do.
   */
  function ResolvedName(dirs: map<Path, set<string>>, directory: Path, filename: string): (r: Result<string, ConflictError>)
    ensures !Taken(dirs, directory, filename) ==> r == Ok(filename)
    ensures Taken(dirs, directory, filename) && r.Ok? ==>
      var name := TargetName(directory, filename);
      var taken := Probe(dirs, directory, name);
      exists n :: (1 <= n <= MaxConflictAttempts && r.value == Candidate(name, n)
        && !taken(n) && forall m :: 1 <= m < n ==> taken(m))
    ensures Taken(dirs, directory, filename) ==>
      var taken := Probe(dirs, directory, TargetName(directory, filename));
      (r.Err? <==> forall n :: 1 <= n <= MaxConflictAttempts ==> taken(n))
  {
    if !Taken(dirs, directory, filename) then Ok(filename)
    else
      var name := TargetName(directory, filename);
      match FirstFree(Probe(dirs, directory, name), 1)
      case Some(n) => Ok(Candidate(name, n))
      case None => Err(AttemptsExhausted(MaxConflictAttempts))
  }

  /** The loop of `resolve_conflict`: probe the counters from 1 up to the limit, stopping at the first free one. */
  method FirstFreeCounter(taken: nat -> bool) returns (r: Option<nat>)
    ensures r == FirstFree(taken, 1)
  {
    for counter := 1 to MaxConflictAttempts + 1
      invariant forall n :: 1 <= n < counter ==> taken(n)
    {
      if !taken(counter) {
        FirstFreeFound(taken, 1, counter);
        return Some(counter);
      }
    }
    FirstFreeNone(taken, 1);
    return None;
  }

  /** `FileRenamer.resolve_conflict`: keep a free name, else probe the numbered candidates in order. */
  method ResolveConflict(fs: FileSystem, directory: Path, filename: string) returns (r: Result<string, ConflictError>)
    ensures r == ResolvedName(fs.dirs, directory, filename)
  {
    if !Taken(fs.dirs, directory, filename) {
      return Ok(filename);
    }
    var name := TargetName(directory, filename);
    var counter := FirstFreeCounter(Probe(fs.dirs, directory, name));
    if counter.Some? {
      return Ok(Candidate(name, counter.value));
    }
    return Err(AttemptsExhausted(MaxConflictAttempts));
  }

  /**
   * Probing `directory / name` for a plain name asks whether the directory
   * that `directory` leads to exists and holds that entry.
   */
  lemma {:induction false} PlainProbe(dirs: map<Path, set<string>>, directory: Path, name: string)
    requires PlainName(name)
    ensures JoinPath(directory, name) == directory + [name]
    ensures TargetName(directory, name) == name
    ensures Taken(dirs, directory, name) <==>
      Walk(dirs, directory).Some? && EntryTaken(dirs, Walk(dirs, directory).value, name)
  {
    PlainParts(name);
    assert !IsAbsolute(name);
    var p := directory + [name];
    assert p[..|p| - 1] == directory;
  }

  /** Probing a numbered candidate of a slash-free name reads one entry of the directory reached. */
  lemma CandidateProbe(dirs: map<Path, set<string>>, directory: Path, name: string, n: nat)
    requires SlashFree(name)
    ensures Taken(dirs, directory, Candidate(name, n)) <==>
      Walk(dirs, directory).Some? && EntryTaken(dirs, Walk(dirs, directory).value, Candidate(name, n))
  {
    CandidatePlain(name, n);
    PlainProbe(dirs, directory, Candidate(name, n));
  }

  /** A numbered candidate for a slash-free name is itself a plain name. */
  lemma CandidatePlain(name: string, n: nat)
    requires SlashFree(name)
    ensures PlainName(Candidate(name, n))
  {
    var stem, x, digits := Stem(name), Suffix(name), NatStr(n);
    var c := Candidate(name, n);
    assert c == stem + "_" + digits + x;
    assert stem + x == name;
    assert SlashFree(stem) && SlashFree(x) by {
      assert forall k :: 0 <= k < |stem| ==> stem[k] == name[k];
      assert forall k :: 0 <= k < |x| ==> x[k] == name[|stem| + k];
    }
    assert SlashFree(c) by {
      forall k | 0 <= k < |c|
        ensures c[k] != '/'
      {
        if k < |stem| {
          assert c[k] == stem[k];
        } else if k >= |c| - |x| {
          assert c[k] == x[k - (|c| - |x|)];
        } else if k > |stem| {
          assert c[k] == digits[k - |stem| - 1];
        }
      }
    }
    assert c[|stem|] == '_';
  }

  /** `resolve_conflict` returns a name for which `directory / name` does not exist. */
  lemma ResolvedNameIsFree(dirs: map<Path, set<string>>, directory: Path, filename: string)
    ensures ResolvedName(dirs, directory, filename).Ok? ==>
      !Taken(dirs, directory, ResolvedName(dirs, directory, filename).value)
  {
    if Taken(dirs, directory, filename) {
      var name := TargetName(directory, filename);
      match FirstFree(Probe(dirs, directory, name), 1)
      case None =>
      case Some(n) => ProbeTaken(dirs, directory, name, n);
    }
  }

  /** The names `resolve_conflict` returns are never empty. */
  lemma ResolvedNameNonEmpty(dirs: map<Path, set<string>>, directory: Path, filename: string)
    requires filename != []
    ensures ResolvedName(dirs, directory, filename).Ok? ==> ResolvedName(dirs, directory, filename).value != []
  {
    if Taken(dirs, directory, filename) {
      var name := TargetName(directory, filename);
      match FirstFree(Probe(dirs, directory, name), 1)
      case None =>
      case Some(n) =>
        assert Candidate(name, n)[|Stem(name)|] == '_';
    }
  }

  /**
   * A name that climbs out through a directory that does not exist is not
   * found, so `resolve_conflict` keeps it; the traversal guard of
   * `execute_rename` refuses it afterwards.
   */
  lemma MissingDirectoryNameKept(dirs: map<Path, set<string>>, directory: Path, missing: string, rest: Path, filename: string)
    requires Walk(dirs, directory) == Some(directory)
    requires IsEntryName(missing) && directory + [missing] !in dirs
    requires rest != [] && !IsAbsolute(filename) && Parts(filename) == [missing] + rest
    ensures ResolvedName(dirs, directory, filename) == Ok(filename)
  {
    NotTakenThroughMissingDirectory(dirs, directory, missing, rest, filename);
  }

  lemma NotTakenThroughMissingDirectory(dirs: map<Path, set<string>>, directory: Path, missing: string, rest: Path, filename: string)
    requires Walk(dirs, directory) == Some(directory)
    requires IsEntryName(missing) && directory + [missing] !in dirs
    requires rest != [] && !IsAbsolute(filename) && Parts(filename) == [missing] + rest
    ensures !Taken(dirs, directory, filename)
  {
    JoinRelative(directory, filename, [missing] + rest);
    assert directory + ([missing] + rest) == directory + [missing] + rest;
    MissingDirectoryHidesPath(dirs, directory, missing, rest);
  }

  /** The first candidate for `test.pdf` is `test_1.pdf`, the next `test_2.pdf`. */
  lemma CandidatesOfTestPdf()
    ensures Candidate("test.pdf", 1) == "test_1.pdf"
    ensures Candidate("test.pdf", 2) == "test_2.pdf"
    ensures PlainName("test.pdf")
    ensures "test_1.pdf" != "test.pdf" && "test_2.pdf" != "test.pdf" && "test_2.pdf" != "test_1.pdf"
  {
    assert "test_1.pdf"[4] != "test.pdf"[4] && "test_2.pdf"[4] != "test.pdf"[4] && "test_2.pdf"[5] != "test_1.pdf"[5];
    assert "test.pdf"[4] == '.';
    assert RFind("test.pdf", '.') == Some(4);
    assert "test.pdf"[..4] == "test";
    assert "test.pdf"[4..] == ".pdf";
  }

  /** An entry of a directory without subdirectories is taken exactly when it is listed. */
  lemma EntryOfLeafDirectory(dirs: map<Path, set<string>>, directory: Path, name: string)
    requires forall e :: e in dirs ==> |e| <= |directory|
    ensures EntryTaken(dirs, directory, name) <==> name in EntriesOf(dirs, directory)
  {
    assert |directory + [name]| > |directory|;
  }

  /** Nothing to avoid in an empty directory: `test.pdf` stays `test.pdf`. */
  lemma ResolveWithoutConflict(dirs: map<Path, set<string>>, directory: Path, filename: string)
    requires filename == "test.pdf"
    requires Walk(dirs, directory) == Some(directory) && EntriesOf(dirs, directory) == {}
    requires forall e :: e in dirs ==> |e| <= |directory|
    ensures ResolvedName(dirs, directory, filename) == Ok(filename)
  {
    PlainProbe(dirs, directory, filename);
    EntryOfLeafDirectory(dirs, directory, filename);
  }

  /**
   * When `filename` exists in a directory that can be reached, it is
   * replaced by the candidate with the first counter that is free.
   */
  lemma ResolvedToFirstFree(dirs: map<Path, set<string>>, directory: Path, filename: string, n: nat)
    requires Walk(dirs, directory) == Some(directory) && PlainName(filename)
    requires EntryTaken(dirs, directory, filename)
    requires 1 <= n <= MaxConflictAttempts
    requires forall m :: 1 <= m < n ==> EntryTaken(dirs, directory, Candidate(filename, m))
    requires !EntryTaken(dirs, directory, Candidate(filename, n))
    ensures ResolvedName(dirs, directory, filename) == Ok(Candidate(filename, n))
  {
    PlainProbe(dirs, directory, filename);
    forall m | 1 <= m <= n
      ensures Probe(dirs, directory, filename)(m) == EntryTaken(dirs, directory, Candidate(filename, m))
    {
      CandidateProbe(dirs, directory, filename, m);
      ProbeTaken(dirs, directory, filename, m);
    }
    FirstFreeFound(Probe(dirs, directory, filename), 1, n);
  }

  /** Beside an existing `test.pdf` the name becomes `test_1.pdf`. */
  lemma ResolveFirstConflict(dirs: map<Path, set<string>>, directory: Path, filename: string)
    requires filename == "test.pdf"
    requires Walk(dirs, directory) == Some(directory) && EntriesOf(dirs, directory) == {filename}
    requires forall e :: e in dirs ==> |e| <= |directory|
    ensures ResolvedName(dirs, directory, filename) == Ok("test_1.pdf")
  {
    CandidatesOfTestPdf();
    EntryOfLeafDirectory(dirs, directory, filename);
    EntryOfLeafDirectory(dirs, directory, "test_1.pdf");
    ResolvedToFirstFree(dirs, directory, filename, 1);
  }

  /** Beside `test.pdf` and `test_1.pdf` the name becomes `test_2.pdf`. */
  lemma ResolveSecondConflict(dirs: map<Path, set<string>>, directory: Path, filename: string)
    requires filename == "test.pdf"
    requires Walk(dirs, directory) == Some(directory) && EntriesOf(dirs, directory) == {filename, "test_1.pdf"}
    requires forall e :: e in dirs ==> |e| <= |directory|
    ensures ResolvedName(dirs, directory, filename) == Ok("test_2.pdf")
  {
    CandidatesOfTestPdf();
    EntryOfLeafDirectory(dirs, directory, filename);
    EntryOfLeafDirectory(dirs, directory, "test_1.pdf");
    EntryOfLeafDirectory(dirs, directory, "test_2.pdf");
    ResolvedToFirstFree(dirs, directory, filename, 2);
  }

  // ---------------------------------------------------------------------------
  // execute_rename
  // ---------------------------------------------------------------------------

  datatype RenameError =
    /** `ValueError`: the new path does not resolve to an entry of the source's directory. */
    | PathTraversal(newName: string)
    /** The operating system finds no file to rename. */
    | SourceMissing
    /** The source is a directory; moving directory trees is not modelled. */
    | SourceIsDirectory
    /** The new path ends in `..` or is the root, which the operating system refuses to rename onto. */
    | TargetNotAnEntry
    /** A directory on the new path's way does not exist, or is a file. */
    | TargetDirectoryMissing
    /** The operating system refuses to replace a directory with a file. */
    | TargetIsDirectory

  /** The guard of `execute_rename`: the resolved new path is not an entry of the source's resolved directory. */
  predicate Escapes(source: FilePath, newName: string)
  {
    Parent(Normalize(JoinPath(source.dir, newName))) != Normalize(source.dir)
  }

  /**
   * `after` is `before` with the entry `from` of directory `d` renamed to
   * `to`: every other directory and every other entry stays as it was.
   */
  ghost predicate Moved(before: map<Path, set<string>>, after: map<Path, set<string>>, d: Path, from: string, to: string)
  {
    && d in before
    && after.Keys == before.Keys
    && (forall e :: e in before && e != d ==> after[e] == before[e])
    && to in after[d]
    && (from != to ==> from !in after[d])
    && (forall n :: n != from && n != to ==> (n in after[d] <==> n in before[d]))
  }

  /** The directory listing after `os.rename` of `from` to `to` inside `d`. */
  function MoveEntry(dirs: map<Path, set<string>>, d: Path, from: string, to: string): (after: map<Path, set<string>>)
    requires d in dirs
    ensures Moved(dirs, after, d, from, to)
  {
    dirs[d := dirs[d] - {from} + {to}]
  }

  /**
   * `FileRenamer.execute_rename` on the file system `dirs`: the returned path
   * (`source.parent / new_name`, unresolved) and the new file system. The
   * guard refuses exactly the names whose resolved parent is not the
   * source's resolved directory. `os.rename` then looks both paths up as the
   * kernel does; an accepted rename moves the entry within the source's
   * directory, replacing a file of the same name, and changes nothing else.
   * Any refusal leaves the file system as it was.
   */
  function RenameEffect(dirs: map<Path, set<string>>, source: FilePath, newName: string)
    : (out: (Result<Path, RenameError>, map<Path, set<string>>))
    ensures out.0 == Err(PathTraversal(newName)) <==> Escapes(source, newName)
    ensures out.0.Err? ==> out.1 == dirs
    ensures out.0.Ok? ==>
      var d := Normalize(source.dir);
      var p := JoinPath(source.dir, newName);
      && out.0.value == p
      && p != [] && IsEntryName(p[|p| - 1])
      && Normalize(p) == d + [p[|p| - 1]]
      && Walk(dirs, source.dir) == Some(d)
      && Walk(dirs, p[..|p| - 1]) == Some(d)
      && source.name in EntriesOf(dirs, d)
      && d + [source.name] !in dirs && Normalize(p) !in dirs
      && Moved(dirs, out.1, d, source.name, p[|p| - 1])
    ensures var d := Normalize(source.dir);
      var p := JoinPath(source.dir, newName);
      && !Escapes(source, newName)
      && p != [] && IsEntryName(p[|p| - 1])
      && Walk(dirs, source.dir).Some? && Walk(dirs, p[..|p| - 1]).Some?
      && source.name in EntriesOf(dirs, d)
      ==> out.0 == if d + [source.name] in dirs then Err(SourceIsDirectory)
                   else if Normalize(p) in dirs then Err(TargetIsDirectory)
                   else Ok(p)
  {
    var d := Normalize(source.dir);
    var p := JoinPath(source.dir, newName);
    var t := Normalize(p);
    if Parent(t) != d then (Err(PathTraversal(newName)), dirs)
    else if Walk(dirs, source.dir).None? then (Err(SourceMissing), dirs)
    else if p == [] || !IsEntryName(p[|p| - 1]) then (Err(TargetNotAnEntry), dirs)
    else if Walk(dirs, p[..|p| - 1]).None? then (Err(TargetDirectoryMissing), dirs)
    else if source.name !in EntriesOf(dirs, d) then (Err(SourceMissing), dirs)
    else if d + [source.name] in dirs then (Err(SourceIsDirectory), dirs)
    else if t in dirs then (Err(TargetIsDirectory), dirs)
    else
      WalkResolves(dirs, source.dir);
      WalkResolves(dirs, p[..|p| - 1]);
      (Ok(p), MoveEntry(dirs, d, source.name, p[|p| - 1]))
  }

  /** `FileRenamer.execute_rename`: check the destination, then rename the file in place. */
  method ExecuteRename(fs: FileSystem, source: FilePath, newName: string) returns (r: Result<Path, RenameError>)
    modifies fs
    ensures (r, fs.dirs) == RenameEffect(old(fs.dirs), source, newName)
  {
    var newPath := JoinPath(source.dir, newName);
    var d := Normalize(source.dir);
    var t := Normalize(newPath);
    if Parent(t) != d {
      return Err(PathTraversal(newName));
    }
    if Walk(fs.dirs, source.dir).None? {
      return Err(SourceMissing);
    }
    if newPath == [] || !IsEntryName(newPath[|newPath| - 1]) {
      return Err(TargetNotAnEntry);
    }
    if Walk(fs.dirs, newPath[..|newPath| - 1]).None? {
      return Err(TargetDirectoryMissing);
    }
    if source.name !in fs.Entries(d) {
      return Err(SourceMissing);
    }
    if d + [source.name] in fs.dirs {
      return Err(SourceIsDirectory);
    }
    if t in fs.dirs {
      return Err(TargetIsDirectory);
    }
    fs.dirs := fs.dirs[d := fs.dirs[d] - {source.name} + {newPath[|newPath| - 1]}];
    return Ok(newPath);
  }

  /**
   * Renaming to a name that does not exist moves one entry: the directory
   * keeps as many entries as before, so no file is replaced.
   */
  lemma RenameToFreeNameKeepsCount(dirs: map<Path, set<string>>, source: FilePath, newName: string)
    requires !PathExists(dirs, JoinPath(source.dir, newName))
    ensures var out := RenameEffect(dirs, source, newName);
      var d := Normalize(source.dir);
      out.0.Ok? ==> d in dirs && d in out.1 && |out.1[d]| == |dirs[d]|
  {
    var out := RenameEffect(dirs, source, newName);
    if out.0.Ok? {
      var d := Normalize(source.dir);
      var p := JoinPath(source.dir, newName);
      var last := p[|p| - 1];
      assert last !in EntriesOf(dirs, d);
      assert out.1[d] == dirs[d] - {source.name} + {last};
      var rest := dirs[d] - {source.name};
      assert dirs[d] == rest + {source.name};
      assert last !in rest;
    }
  }

  /** A name of one segment that is not `.` or `..`. */
  predicate PlainName(name: string)
  {
    name != "" && name != "." && name != ".." && SlashFree(name)
  }

  lemma PlainParts(name: string)
    requires PlainName(name)
    ensures Parts(name) == [name]
  {
    SplitSlashFree(name);
    assert [name][1..] == [];
    assert Steps([name]) == [name] + Steps([]);
  }

  /** A plain new name passes the guard and names that entry of the source's directory. */
  lemma {:induction false} PlainNameAccepted(source: FilePath, newName: string)
    requires PlainName(newName)
    ensures Normalize(JoinPath(source.dir, newName)) == Normalize(source.dir) + [newName]
    ensures !Escapes(source, newName)
  {
    PlainParts(newName);
    assert !IsAbsolute(newName);
    var p := source.dir + [newName];
    assert JoinPath(source.dir, newName) == p;
    assert p[..|p| - 1] == source.dir;
    assert Normalize(p) == Normalize(source.dir) + [newName];
  }

  /**
   * Renaming an existing file to a plain name that is not a directory
   * returns `source.parent / new_name`, after which the new path exists and
   * the old one, when different, does not.
   */
  lemma PlainRenameMovesFile(dirs: map<Path, set<string>>, source: FilePath, newName: string)
    requires PlainName(newName) && PlainName(source.name)
    requires Walk(dirs, source.dir).Some?
    requires source.name in EntriesOf(dirs, Normalize(source.dir))
    requires Normalize(source.dir) + [source.name] !in dirs
    requires Normalize(source.dir) + [newName] !in dirs
    ensures var (r, after) := RenameEffect(dirs, source, newName);
      && r == Ok(source.dir + [newName])
      && PathExists(after, source.dir + [newName])
      && (newName != source.name ==> !PathExists(after, source.dir + [source.name]))
  {
    PlainNameAccepted(source, newName);
    PlainParts(newName);
    WalkResolves(dirs, source.dir);
    var d := Normalize(source.dir);
    var after := RenameEffect(dirs, source, newName).1;
    WalkSameDirectories(dirs, after, source.dir);
    var np := source.dir + [newName];
    var sp := source.dir + [source.name];
    assert np[..|np| - 1] == source.dir;
    assert sp[..|sp| - 1] == source.dir;
    if newName != source.name {
      assert d + [source.name] !in after;
    }
  }

  lemma {:induction false} PartsOfParentStep(x: string)
    requires PlainName(x)
    ensures Parts("../" + x) == ["..", x]
  {
    var name := "../" + x;
    assert name[0] == '.' && name[1] == '.' && name[2] == '/';
    assert Find(name, '/') == Some(2);
    assert name[..2] == "..";
    assert name[3..] == x;
    SplitSlashFree(x);
    assert SplitSlash(name) == ["..", x];
    assert ["..", x][1..] == [x];
    PlainParts(x);
    assert Steps(["..", x]) == [".."] + Steps([x]);
  }

  /**
   * A name that climbs out with `../` is refused, except in the root
   * directory, where `..` stays put.
   */
  lemma {:induction false} ParentEscapeRefused(source: FilePath, x: string)
    requires PlainName(x)
    ensures Escapes(source, "../" + x) <==> Normalize(source.dir) != []
  {
    PartsOfParentStep(x);
    var p := source.dir + ["..", x];
    assert JoinPath(source.dir, "../" + x) == p;
    assert p[..|p| - 1] == source.dir + [".."];
    assert (source.dir + [".."])[..|p| - 2] == source.dir;
    var d := Normalize(source.dir);
    assert Normalize(source.dir + [".."]) == Parent(d);
    assert Normalize(p) == Parent(d) + [x];
    assert Parent(Normalize(p)) == Parent(d);
    if d != [] {
      assert |Parent(d)| < |d|;
    }
  }

  /** A slash-free piece followed by a slash splits off first. */
  lemma SplitSlashHead(head: string, rest: string)
    requires SlashFree(head)
    ensures SplitSlash(head + "/" + rest) == [head] + SplitSlash(rest)
  {
    var s := head + "/" + rest;
    assert s[|head|] == '/';
    assert forall k :: 0 <= k < |head| ==> s[k] == head[k];
    assert Find(s, '/') == Some(|head|);
    assert s[..|head|] == head && s[|head| + 1..] == rest;
  }

  /** Three slash-free pieces joined by slashes split back into those pieces. */
  lemma SplitThreePieces(b: string, c: string, x: string)
    requires SlashFree(b) && SlashFree(c) && SlashFree(x)
    ensures SplitSlash(b + "/" + (c + "/" + x)) == [b, c, x]
  {
    SplitSlashFree(x);
    SplitSlashHead(c, x);
    SplitSlashHead(b, c + "/" + x);
  }

  /** Four slash-free pieces joined by slashes split back into those pieces. */
  lemma SplitFourPieces(a: string, b: string, c: string, x: string)
    requires SlashFree(a) && SlashFree(b) && SlashFree(c) && SlashFree(x)
    ensures SplitSlash(a + "/" + (b + "/" + (c + "/" + x))) == [a, b, c, x]
  {
    SplitThreePieces(b, c, x);
    SplitSlashHead(a, b + "/" + (c + "/" + x));
  }

  /** `"d/../../x"` splits into the pieces `d`, `..`, `..` and `x`. */
  lemma SplitClimbingName(name: string)
    requires name == "d/../../x"
    ensures SplitSlash(name) == ["d", "..", "..", "x"]
  {
    var d, up, x := "d", "..", "x";
    assert name == d + "/" + (up + "/" + (up + "/" + x));
    SplitFourPieces(d, up, up, x);
  }

  /** `"d/../../x"` is made of the segments `d`, `..`, `..` and `x`. */
  lemma PartsOfClimbingName(name: string)
    requires name == "d/../../x"
    ensures Parts(name) == ["d", "..", "..", "x"]
  {
    SplitClimbingName(name);
    var pieces := ["d", "..", "..", "x"];
    assert pieces[1..] == ["..", "..", "x"] && pieces[1..][1..] == ["..", "x"] && pieces[1..][1..][1..] == ["x"];
    assert Steps(["x"]) == ["x"] + Steps([]);
  }

  /** One more segment after a path, as `Normalize` treats it. */
  lemma NormalizeSnoc(p: Path, s: string)
    ensures var q := Normalize(p);
      Normalize(p + [s]) ==
        if s == ".." then (if q == [] then [] else q[..|q| - 1])
        else if s == "" || s == "." then q
        else q + [s]
  {
    assert (p + [s])[..|p|] == p;
  }

  /** Two plain segments, then two `..`, then a plain name: only the name is left. */
  lemma ClimbTwo(a: string, b: string, x: string)
    requires a !in {"", ".", ".."} && b !in {"", ".", ".."} && x !in {"", ".", ".."}
    ensures Normalize([a, b, "..", "..", x]) == [x]
  {
    var p0: Path := [];
    NormalizeSnoc(p0, a);
    var p1 := p0 + [a];
    NormalizeSnoc(p1, b);
    var p2 := p1 + [b];
    assert Normalize(p2) == [a, b];
    NormalizeSnoc(p2, "..");
    var p3 := p2 + [".."];
    assert Normalize(p3) == [a];
    NormalizeSnoc(p3, "..");
    var p4 := p3 + [".."];
    assert Normalize(p4) == [];
    NormalizeSnoc(p4, x);
    assert p4 + [x] == [a, b, "..", "..", x];
  }

  /** How `Path.resolve()` treats `/r/d/../../x`: it climbs to the root. */
  lemma NormalizeClimb()
    ensures Normalize(["r", "d", "..", "..", "x"]) == ["x"]
  {
    ClimbTwo("r", "d", "x");
  }

  /**
   * In `/r`, whose subdirectory `d` does not exist, the name `d/../../x` is
   * not found even if `/x` exists, so `resolve_conflict` keeps it, and the
   * traversal guard of `execute_rename` then refuses it.
   */
  lemma ClimbThroughMissingDirectory(dirs: map<Path, set<string>>, source: FilePath, filename: string)
    requires filename == "d/../../x" && source.dir == ["r"]
    requires ["r"] in dirs && ["r", "d"] !in dirs
    ensures ResolvedName(dirs, source.dir, filename) == Ok(filename)
    ensures RenameEffect(dirs, source, filename).0 == Err(PathTraversal(filename))
  {
    PartsOfClimbingName(filename);
    assert !IsAbsolute(filename);
    var r: Path := ["r"];
    assert r[..0] == [] && [] + r == r;
    assert Walk(dirs, r) == Some(r);
    assert Normalize(r) == r;
    assert r + ["d"] == ["r", "d"];
    MissingDirectoryNameKept(dirs, r, "d", ["..", "..", "x"], filename);
    assert JoinPath(source.dir, filename) == ["r", "d", "..", "..", "x"];
    NormalizeClimb();
  }
}
