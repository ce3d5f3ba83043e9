/**
 * The extracted receipt record and the parser that turns a vision model's
 * free-text reply into one (`ReceiptData` and `ReceiptData.from_json`).
 *
 * The dataclass does not check the types of its fields, and `from_json`
 * copies decoded values into it unchanged, so every field holds a decoded
 * JSON value. JSON decoding itself (`json.loads`) is a parameter `decode`:
 * `None` stands for `JSONDecodeError`.
 */
module Models {
  import opened Wrappers
  import opened PyText
  import opened Json

  /** The declared fields of the record, which are also the JSON keys it accepts. */
  const FieldNames: set<string> :=
    {"date", "provider", "patient", "amount", "currency", "is_medical_receipt"}

  datatype ReceiptData = ReceiptData(
    date: JsonValue,
    provider: JsonValue,
    patient: JsonValue,
    amount: JsonValue,
    currency: JsonValue,
    isMedicalReceipt: JsonValue)

  /** `ReceiptData()`: the declared defaults. */
  const Default: ReceiptData :=
    ReceiptData(JNull, JNull, JNull, JNull, JString("USD"), JBool(true))

  /** `ReceiptData(is_medical_receipt=False)`, what an undecodable reply yields. */
  const Unparseable: ReceiptData := Default.(isMedicalReceipt := JBool(false))

  datatype FromJsonError =
    /** The decoded value is not an object, so `data.items()` raises `AttributeError`. */
    | NotAnObject

  function FieldOr(fields: map<string, JsonValue>, key: string, default: JsonValue): JsonValue
  {
    if key in fields then fields[key] else default
  }

  /** `cls(**fields)`: each declared field taken from `fields` when present, else its default. */
  function FromFields(fields: map<string, JsonValue>): ReceiptData
  {
    ReceiptData(
      FieldOr(fields, "date", Default.date),
      FieldOr(fields, "provider", Default.provider),
      FieldOr(fields, "patient", Default.patient),
      FieldOr(fields, "amount", Default.amount),
      FieldOr(fields, "currency", Default.currency),
      FieldOr(fields, "is_medical_receipt", Default.isMedicalReceipt))
  }

  // ---------------------------------------------------------------------------
  // Locating the JSON object in the reply: re.search(r"\{[^{}]*\}", text)
  // ---------------------------------------------------------------------------

  predicate IsBrace(c: char) { c == '{' || c == '}' }

  /** `s[a..b]` is a match of `\{[^{}]*\}`: an opening brace, no braces, a closing brace. */
  predicate ObjectMatch(s: string, a: nat, b: nat)
  {
    a + 2 <= b <= |s| && s[a] == '{' && s[b - 1] == '}' &&
    forall k :: a < k < b - 1 ==> !IsBrace(s[k])
  }

  /** The index of the first brace at or after `i`. */
  function NextBrace(s: string, i: nat): (r: Option<nat>)
    requires i <= |s|
    ensures r.Some? ==> i <= r.value < |s| && IsBrace(s[r.value])
    ensures r.Some? ==> forall k :: i <= k < r.value ==> !IsBrace(s[k])
    ensures r.None? ==> forall k :: i <= k < |s| ==> !IsBrace(s[k])
    decreases |s| - i
  {
    if i == |s| then None else if IsBrace(s[i]) then Some(i) else NextBrace(s, i + 1)
  }

  /**
   * The end of the match that starts at `a`, if one does. `[^{}]*` cannot
   * consume a brace, so a match at `a` ends just after the first brace
   * following `a`, and only when that brace closes.
   */
  function MatchEnd(s: string, a: nat): (r: Option<nat>)
    requires a < |s|
    ensures forall b: nat :: ObjectMatch(s, a, b) <==> r == Some(b)
  {
    if s[a] != '{' then None
    else match NextBrace(s, a + 1)
      case None => None
      case Some(j) => if s[j] == '}' then Some(j + 1) else None
  }

  /** `re.search` started at `from`: the match with the leftmost start. */
  function SearchFrom(s: string, from: nat): (r: Option<(nat, nat)>)
    requires from <= |s|
    ensures r.Some? ==> from <= r.value.0 && ObjectMatch(s, r.value.0, r.value.1)
    ensures r.Some? ==> forall a, b :: from <= a < r.value.0 ==> !ObjectMatch(s, a, b)
    ensures r.None? ==> forall a, b :: from <= a ==> !ObjectMatch(s, a, b)
    decreases |s| - from
  {
    if from == |s| then None
    else match MatchEnd(s, from)
      case Some(b) => Some((from, b))
      case None => SearchFrom(s, from + 1)
  }

  /** The text that `from_json` hands to the decoder. */
  function SelectJson(text: string): (t: string)
    ensures (forall a: nat, b: nat :: !ObjectMatch(text, a, b)) ==> t == text
    ensures (exists a: nat, b: nat :: ObjectMatch(text, a, b)) ==>
      exists a: nat, b: nat ::
        && ObjectMatch(text, a, b) && t == text[a..b]
        && forall a': nat, b': nat :: a' < a ==> !ObjectMatch(text, a', b')
    ensures SearchFrom(text, 0).Some? ==>
      2 <= |t| && t[0] == '{' && t[|t| - 1] == '}' && forall k :: 0 < k < |t| - 1 ==> !IsBrace(t[k])
  {
    match SearchFrom(text, 0)
    case Some((a, b)) => text[a..b]
    case None => text
  }

  /** A reply that holds no opening brace is decoded whole. */
  lemma NoBraceSelectsAll(text: string)
    requires forall k :: 0 <= k < |text| ==> text[k] != '{'
    ensures SelectJson(text) == text
  {
  }

  /**
   * When prose without braces precedes a brace-free object, that object is
   * what gets decoded, whatever follows it.
   */
  lemma {:induction false} WrappedObjectSelected(prose: string, inner: string, rest: string)
    requires forall k :: 0 <= k < |prose| ==> prose[k] != '{'
    requires forall k :: 0 <= k < |inner| ==> !IsBrace(inner[k])
    ensures SelectJson(prose + "{" + inner + "}" + rest) == "{" + inner + "}"
  {
    var text := prose + "{" + inner + "}" + rest;
    var a, b := |prose|, |prose| + |inner| + 2;
    assert text[a] == '{' && text[b - 1] == '}';
    assert forall k :: a < k < b - 1 ==> text[k] == inner[k - a - 1];
    assert ObjectMatch(text, a, b);
    var found := SearchFrom(text, 0);
    assert found.Some?;
    var (a', b') := found.value;
    assert a' <= a;
    assert text[a'] == '{';
    assert a' == a;
    assert text[a..b] == "{" + inner + "}";
  }

  // ---------------------------------------------------------------------------
  // Amounts given as text: float(re.sub(r"[^\d.]", "", amount))
  // ---------------------------------------------------------------------------

  predicate IsDecimalChar(c: char) { IsDigit(c) || c == '.' }

  predicate IsDot(c: char) { c == '.' }

  /** `re.sub(r"[^\d.]", "", s)`: the digits and dots of `s`, in order. */
  function AmountResidue(s: string): string
  {
    Filter(IsDecimalChar, s)
  }

  predicate AllDigits(s: string) { forall k :: 0 <= k < |s| ==> IsDigit(s[k]) }

  function Pow10(k: nat): (p: nat)
    ensures p >= 1
  {
    if k == 0 then 1 else 10 * Pow10(k - 1)
  }

  /**
   * `float(r)` for the strings Python accepts that are made of digits and at
   * most one dot: digits, optionally with a dot anywhere among them, but not
   * the dot alone. Anything else is `None` (Python's `ValueError`).
   */
  function ParseDecimal(r: string): (v: Option<real>)
    ensures v.Some? ==> v.value >= 0.0
  {
    match Find(r, '.')
    case None =>
      if r != [] && AllDigits(r) then Some(DigitsValue(r) as real) else None
    case Some(i) =>
      var whole, frac := r[..i], r[i + 1..];
      if (whole != [] || frac != []) && AllDigits(whole) && AllDigits(frac)
      then Some(DotValue(whole, frac))
      else None
  }

  /** The number that digits `whole`, a dot and digits `frac` denote. */
  function DotValue(whole: string, frac: string): (v: real)
    ensures v >= 0.0
  {
    DigitsValue(whole) as real + DigitsValue(frac) as real / Pow10(|frac|) as real
  }

  lemma {:induction false} DotCountAround(whole: string, frac: string)
    requires forall k :: 0 <= k < |whole| ==> whole[k] != '.'
    ensures |Filter(IsDot, whole + ['.'] + frac)| == 1 + |Filter(IsDot, frac)|
  {
    FilterAppend(IsDot, whole + ['.'], frac);
    FilterAppend(IsDot, whole, ['.']);
    FilterDropsAll(IsDot, whole);
    assert Filter(IsDot, ['.']) == ['.'];
  }

  lemma {:induction false} DotCounted(s: string, k: nat)
    requires k < |s| && s[k] == '.'
    ensures |Filter(IsDot, s)| >= 1
  {
    assert s == s[..k] + [s[k]] + s[k + 1..];
    FilterAppend(IsDot, s[..k] + [s[k]], s[k + 1..]);
    FilterAppend(IsDot, s[..k], [s[k]]);
    assert Filter(IsDot, [s[k]]) == [s[k]];
  }

  /**
   * On a residue (only digits and dots) the parse succeeds exactly when there
   * is at most one dot and at least one digit.
   */
  lemma ParseDecimalDefined(r: string)
    requires forall k :: 0 <= k < |r| ==> IsDecimalChar(r[k])
    ensures ParseDecimal(r).Some? <==>
      |Filter(IsDot, r)| <= 1 && exists k :: 0 <= k < |r| && IsDigit(r[k])
  {
    match Find(r, '.')
    case None =>
      FilterDropsAll(IsDot, r);
      assert AllDigits(r);
      if r != [] { assert IsDigit(r[0]); }
    case Some(i) =>
      ParseDecimalDefinedWithDot(r, i);
  }

  lemma ParseDecimalDefinedWithDot(r: string, i: nat)
    requires forall k :: 0 <= k < |r| ==> IsDecimalChar(r[k])
    requires Find(r, '.') == Some(i)
    ensures ParseDecimal(r).Some? <==>
      |Filter(IsDot, r)| <= 1 && exists k :: 0 <= k < |r| && IsDigit(r[k])
  {
    var whole, frac := r[..i], r[i + 1..];
    assert r == whole + ['.'] + frac;
    DotCountAround(whole, frac);
    assert AllDigits(whole);
    if AllDigits(frac) {
      FilterDropsAll(IsDot, frac);
      if whole != [] {
        assert IsDigit(r[0]);
      } else if frac != [] {
        assert IsDigit(r[i + 1]);
      } else {
        assert |r| == 1 && !IsDigit(r[0]);
      }
    } else {
      var k :| 0 <= k < |frac| && !IsDigit(frac[k]);
      DotCounted(frac, k);
    }
  }

  /** `float(re.sub(r"[^\d.]", "", s))`, with `None` where Python raises `ValueError`. */
  function AmountFromText(s: string): (v: JsonValue)
    ensures v == JNull || (v.JNum? && v.n >= 0.0)
    ensures v.JNum? <==> ParseDecimal(AmountResidue(s)).Some?
  {
    match ParseDecimal(AmountResidue(s))
    case Some(x) => JNum(x)
    case None => JNull
  }

  /** The overwrite of `filtered["amount"]`: a text amount is parsed, any other value is kept. */
  function NormalizeAmount(v: JsonValue): (r: JsonValue)
    ensures !v.JString? ==> r == v
    ensures v.JString? ==> r == AmountFromText(v.s)
  {
    if v.JString? then AmountFromText(v.s) else v
  }

  /** `d` is `from_json`'s record for the decoded object `m`. */
  predicate RecordOf(m: map<string, JsonValue>, d: ReceiptData)
  {
    && d.date == FieldOr(m, "date", JNull)
    && d.provider == FieldOr(m, "provider", JNull)
    && d.patient == FieldOr(m, "patient", JNull)
    && d.amount == (if "amount" in m then NormalizeAmount(m["amount"]) else JNull)
    && d.currency == FieldOr(m, "currency", JString("USD"))
    && d.isMedicalReceipt == FieldOr(m, "is_medical_receipt", JBool(true))
  }

  /**
   * `ReceiptData.from_json`: select the object text, decode it, keep the
   * declared fields, parse a text amount, fill in the defaults.
   */
  function FromJson(text: string, decode: string -> Option<JsonValue>): (r: Result<ReceiptData, FromJsonError>)
    ensures decode(SelectJson(text)).None? ==> r == Ok(Unparseable)
    ensures decode(SelectJson(text)).Some? && !decode(SelectJson(text)).value.JObject? ==> r == Err(NotAnObject)
    ensures decode(SelectJson(text)).Some? && decode(SelectJson(text)).value.JObject? ==>
      r.Ok? && RecordOf(decode(SelectJson(text)).value.fields, r.value)
  {
    match decode(SelectJson(text))
    case None => Ok(Unparseable)
    case Some(JObject(data)) =>
      var filtered := map k | k in data && k in FieldNames :: data[k];
      var normalized :=
        if "amount" in filtered && filtered["amount"].JString?
        then filtered["amount" := AmountFromText(filtered["amount"].s)]
        else filtered;
      Ok(FromFields(normalized))
    case Some(_) => Err(NotAnObject)
  }

  /** Keys outside the declared fields have no influence on the record. */
  lemma UnknownKeysIgnored(text: string, decode: string -> Option<JsonValue>, m: map<string, JsonValue>, extra: map<string, JsonValue>)
    requires decode(SelectJson(text)) == Some(JObject(m))
    requires extra.Keys !! FieldNames
    ensures FromJson(text, d => if d == SelectJson(text) then Some(JObject(m + extra)) else decode(d)) == FromJson(text, decode)
  {
    var decode' := d => if d == SelectJson(text) then Some(JObject(m + extra)) else decode(d);
    var r, r' := FromJson(text, decode), FromJson(text, decode');
    assert RecordOf(m, r.value) && RecordOf(m + extra, r'.value);
    forall f | f in FieldNames ensures (f in m + extra) == (f in m) && (f in m ==> (m + extra)[f] == m[f]) {
      assert f !in extra;
    }
  }

  /** A reply that decodes to an object without `is_medical_receipt` gives a record marked as a receipt. */
  lemma OmittedFlagDefaultsTrue(text: string, decode: string -> Option<JsonValue>, m: map<string, JsonValue>)
    requires decode(SelectJson(text)) == Some(JObject(m))
    requires "is_medical_receipt" !in m
    ensures FromJson(text, decode).Ok? && FromJson(text, decode).value.isMedicalReceipt == JBool(true)
  {
  }

  /** A prefix without digits or dots vanishes from the residue of a text. */
  lemma ResidueAfterPrefix(prefix: string, rest: string)
    requires forall k :: 0 <= k < |prefix| ==> !IsDecimalChar(prefix[k])
    requires forall k :: 0 <= k < |rest| ==> IsDecimalChar(rest[k])
    ensures AmountResidue(prefix + rest) == rest
  {
    FilterAppend(IsDecimalChar, prefix, rest);
    FilterDropsAll(IsDecimalChar, prefix);
    FilterKeepsAll(IsDecimalChar, rest);
  }

  /** The first dot of `whole + "." + frac`, when `whole` has none, separates the two. */
  lemma DotSplit(whole: string, frac: string)
    requires forall k :: 0 <= k < |whole| ==> whole[k] != '.'
    ensures var s := whole + "." + frac;
      Find(s, '.') == Some(|whole|) && s[..|whole|] == whole && s[|whole| + 1..] == frac
  {
    var s := whole + "." + frac;
    assert s[|whole|] == '.';
    assert forall k :: 0 <= k < |whole| ==> s[k] == whole[k];
  }

  /** Digits, a dot and digits read as the whole part plus the fraction. */
  lemma ParseDotted(whole: string, frac: string)
    requires (whole != [] || frac != []) && AllDigits(whole) && AllDigits(frac)
    ensures ParseDecimal(whole + "." + frac) ==
      Some(DotValue(whole, frac))
  {
    assert forall k :: 0 <= k < |whole| ==> whole[k] != '.' by {
      forall k | 0 <= k < |whole| ensures whole[k] != '.' {
        assert IsDigit(whole[k]);
      }
    }
    var s := whole + "." + frac;
    DotSplit(whole, frac);
    ParseAtDot(s, |whole|, whole, frac);
  }

  /** The parse of a text whose first dot is at `i`. */
  lemma ParseAtDot(s: string, i: nat, whole: string, frac: string)
    requires Find(s, '.') == Some(i) && i < |s|
    requires whole == s[..i] && frac == s[i + 1..]
    requires (whole != [] || frac != []) && AllDigits(whole) && AllDigits(frac)
    ensures ParseDecimal(s) ==
      Some(DotValue(whole, frac))
  {

  }

  /** A residue of digits only reads as the integer they spell. */
  lemma AmountOfDigitResidue(s: string)
    requires AmountResidue(s) != [] && AllDigits(AmountResidue(s))
    ensures AmountFromText(s) == JNum(DigitsValue(AmountResidue(s)) as real)
  {
    var r := AmountResidue(s);
    assert Find(r, '.').None? by {
      if Find(r, '.').Some? {
        assert IsDigit(r[Find(r, '.').value]);
      }
    }
  }

  /**
   * A residue of digits, one dot and digits, with a digit on at least one
   * side, reads as the whole part plus the fraction.
   */
  lemma AmountOfDottedResidue(s: string, whole: string, frac: string)
    requires (whole != [] || frac != []) && AllDigits(whole) && AllDigits(frac)
    requires AmountResidue(s) == whole + "." + frac
    ensures AmountFromText(s) == JNum(DotValue(whole, frac))
  {
    ParseDotted(whole, frac);
  }

  lemma FortyFiveNinetyNine()
    ensures AllDigits("45") && AllDigits("99")
    ensures DotValue("45", "99") == 45.99
  {
    assert DigitsValue("45") == 45 by {
      assert "45"[..1] == "4";
    }
    assert DigitsValue("99") == 99 by {
      assert "99"[..1] == "9";
    }
    assert Pow10(2) == 100;
  }

  /** A dollar sign in a text amount is dropped: `"$45.99"` reads as 45.99. */
  lemma AmountWithSymbolExample(text: string)
    requires text == "$45.99"
    ensures AmountFromText(text) == JNum(45.99)
  {
    assert text == "$" + "45.99";
    ResidueAfterPrefix("$", "45.99");
    assert "45.99" == "45" + "." + "99";
    FortyFiveNinetyNine();
    AmountOfDottedResidue(text, "45", "99");
  }

  lemma OneHundredFifty()
    ensures AllDigits("100") && AllDigits("50")
    ensures DotValue("100", "50") == 100.50
  {
    assert Pow10(2) == 100;
    assert DigitsValue("100") == 100 by {
      assert "100"[..2] == "10";
      assert "10"[..1] == "1";
    }
    assert DigitsValue("50") == 50 by {
      assert "50"[..1] == "5";
    }
  }

  /** A currency word and a space are dropped: `"USD 100.50"` reads as 100.50. */
  lemma AmountWithCodeExample(text: string)
    requires text == "USD 100.50"
    ensures AmountFromText(text) == JNum(100.50)
  {
    assert text == "USD " + "100.50";
    ResidueAfterPrefix("USD ", "100.50");
    assert "100.50" == "100" + "." + "50";
    OneHundredFifty();
    AmountOfDottedResidue(text, "100", "50");
  }

  /** Text without digits leaves an empty residue, which does not parse: the amount becomes null. */
  lemma AmountWithoutDigitsExample(text: string)
    requires text == "not a number"
    ensures AmountFromText(text) == JNull
  {
    FilterDropsAll(IsDecimalChar, text);
    assert AmountResidue(text) == "";
  }

  /** The reply of the unit test that holds no JSON at all, under a decoder that rejects it. */
  lemma NotJsonAtAll(decode: string -> Option<JsonValue>)
    requires decode("not json at all") == None
    ensures FromJson("not json at all", decode) == Ok(Unparseable)
    ensures Unparseable == Default.(isMedicalReceipt := JBool(false))
  {
    NoBraceSelectsAll("not json at all");
  }
}
