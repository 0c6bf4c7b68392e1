/** The Django REST Framework field types the serializers are built from,
    reduced to what decides whether a value is accepted and what is stored. */
module Fields {
  import opened Wrappers
  import opened Responses

  /** A value as it reaches a serializer: key missing, JSON null, or given. */
  datatype Input<+T> = Absent | Null | Given(value: T)

  /** A view builds its own dict with `request.data.get(key)`, so a key the
      client left out reaches the serializer as None, never as missing. */
  function Got<T>(o: Option<T>): (i: Input<T>)
    ensures !i.Absent?
    ensures i.Given? <==> o.Some?
    ensures i.Given? ==> i.value == o.value
  {
    if o.None? then Null else Given(o.value)
  }

  // ---------------------------------------------------------------------------
  // Whitespace stripping (CharField has trim_whitespace on by default)

  /** Python's `str.isspace` for one character. */
  predicate IsSpace(c: char)
  {
    || c == ' ' || c == '\t' || c == '\n' || c == '\r'
    || c == '\U{000B}' || c == '\U{000C}'
    || ('\U{001C}' <= c <= '\U{001F}')
    || c == '\U{0085}' || c == '\U{00A0}' || c == '\U{1680}'
    || ('\U{2000}' <= c <= '\U{200A}')
    || c == '\U{2028}' || c == '\U{2029}' || c == '\U{202F}' || c == '\U{205F}' || c == '\U{3000}'
  }

  function LeadingSpaces(s: string): (n: nat)
    ensures n <= |s|
    ensures forall i :: 0 <= i < n ==> IsSpace(s[i])
    ensures n < |s| ==> !IsSpace(s[n])
  {
    if |s| == 0 || !IsSpace(s[0]) then 0 else 1 + LeadingSpaces(s[1..])
  }

  function TrailingSpaces(s: string): (n: nat)
    ensures n <= |s|
    ensures forall i :: |s| - n <= i < |s| ==> IsSpace(s[i])
    ensures n < |s| ==> !IsSpace(s[|s| - n - 1])
  {
    if |s| == 0 || !IsSpace(s[|s| - 1]) then 0 else 1 + TrailingSpaces(s[..|s| - 1])
  }

  /** Python's `str.strip()`: the slice of `s` without surrounding whitespace. */
  function Strip(s: string): (r: string)
    ensures |r| <= |s|
    ensures r == [] <==> forall i :: 0 <= i < |s| ==> IsSpace(s[i])
    ensures r != [] ==> !IsSpace(r[0]) && !IsSpace(r[|r| - 1])
    ensures LeadingSpaces(s) + |r| <= |s| && r == s[LeadingSpaces(s)..LeadingSpaces(s) + |r|]
    ensures forall i :: LeadingSpaces(s) + |r| <= i < |s| ==> IsSpace(s[i])
  {
    var a := LeadingSpaces(s);
    var rest := s[a..];
    var b := TrailingSpaces(rest);
    var r := rest[..|rest| - b];
    assert r == s[a..a + |r|];
    assert r != [] ==> r[0] == s[a] && r[|r| - 1] == rest[|rest| - b - 1];
    assert a < |s| ==> rest[0] == s[a];
    assert r == [] ==> a == |s|;
    assert forall i :: a + |r| <= i < |s| ==> s[i] == rest[i - a];
    r
  }

  /** Stripping twice is stripping once. */
  lemma StripIdempotent(s: string)
    ensures Strip(Strip(s)) == Strip(s)
  {
    var r := Strip(s);
    if r != [] {
      assert LeadingSpaces(r) == 0;
      assert TrailingSpaces(r) == 0;
    }
  }

  // ---------------------------------------------------------------------------
  // CharField

  /** Validators that add nothing. */
  function NoCheck(s: string): seq<Reason>
  {
    []
  }

  /** A non-blank stripped value passes the length limit, the ban on U+0000
      and the field's own validators, those given to the field (`extra`) and
      those a subclass appends after the built-in ones (`late`). */
  predicate Acceptable(v: string, maxLen: Option<nat>, extra: string -> seq<Reason>, late: string -> seq<Reason>)
  {
    (maxLen.None? || |v| <= maxLen.value) && '\0' !in v && extra(v) == [] && late(v) == []
  }

  /** Everything a CharField demands of a value: it is given, it is not
      blank unless blank is allowed, and a non-blank value is acceptable. */
  predicate CharFieldOk(i: Input<string>, allowBlank: bool, maxLen: Option<nat>, extra: string -> seq<Reason>,
                       late: string -> seq<Reason>)
  {
    && i.Given?
    && (Strip(i.value) == [] ==> allowBlank)
    && (Strip(i.value) != [] ==> Acceptable(Strip(i.value), maxLen, extra, late))
  }

  /** A serializers.CharField: None and missing keys are refused, the value is
      stripped, a blank value is refused unless `allowBlank`, and the stripped
      value must pass the validators given to the field (`extra`), then the
      length limit and the ban on U+0000, then the validators a subclass
      appends (`late`, the address check of an EmailField). Every failing
      validator contributes its reason, in that order. */
  function CharField(i: Input<string>, allowBlank: bool, maxLen: Option<nat>, extra: string -> seq<Reason>,
                     late: string -> seq<Reason>)
    : (r: Result<string, seq<Reason>>)
    ensures i.Absent? ==> r == Failure([Required])
    ensures i.Null? ==> r == Failure([NotNullable])
    ensures r.Success? ==> i.Given? && r.value == Strip(i.value)
    ensures r.Success? ==> allowBlank || r.value != []
    ensures r.Success? ==> maxLen.None? || |r.value| <= maxLen.value
    ensures r.Success? ==> '\0' !in r.value
    ensures r.Success? && r.value != [] ==> extra(r.value) == [] && late(r.value) == []
    ensures r.Failure? ==> |r.error| > 0
    ensures i.Given? && Strip(i.value) == [] && !allowBlank ==> r == Failure([Blank])
    ensures i.Given? && Strip(i.value) != [] && Acceptable(Strip(i.value), maxLen, extra, late) ==> r.Success?
    ensures r.Success? <==> CharFieldOk(i, allowBlank, maxLen, extra, late)
  {
    match i
    case Absent => Failure([Required])
    case Null => Failure([NotNullable])
    case Given(s) =>
      var v := Strip(s);
      if v == [] then
        (if allowBlank then Success([]) else Failure([Blank]))
      else
        var errs := extra(v)
          + (if maxLen.Some? && |v| > maxLen.value then [TooLong(maxLen.value)] else [])
          + (if '\0' in v then [NullCharacter] else [])
          + late(v);
        if errs == [] then Success(v) else Failure(errs)
  }

  /** What a CharField stores, it accepts again unchanged. */
  lemma CharFieldAcceptsStored(s: string, allowBlank: bool, maxLen: Option<nat>, extra: string -> seq<Reason>,
                               late: string -> seq<Reason>)
    requires CharField(Given(s), allowBlank, maxLen, extra, late).Success?
    ensures CharField(Given(CharField(Given(s), allowBlank, maxLen, extra, late).value), allowBlank, maxLen, extra, late)
            == CharField(Given(s), allowBlank, maxLen, extra, late)
  {
    StripIdempotent(s);
  }

  // ---------------------------------------------------------------------------
  // IntegerField, BooleanField, PrimaryKeyRelatedField

  /** A serializers.IntegerField with `min_value` and an optional `max_value`
      (string parsing is not modelled: the value arrives as an integer). */
  function IntegerField(i: Input<int>, least: int, most: Option<int>): (r: Result<int, seq<Reason>>)
    ensures r.Success? <==> i.Given? && least <= i.value && (most.None? || i.value <= most.value)
    ensures r.Success? ==> r.value == i.value
    ensures i.Null? ==> r == Failure([NotNullable])
    ensures r.Failure? ==> |r.error| > 0
  {
    match i
    case Absent => Failure([Required])
    case Null => Failure([NotNullable])
    case Given(v) =>
      if v < least then Failure([BelowMin(least)])
      else if most.Some? && v > most.value then Failure([AboveMax(most.value)])
      else Success(v)
  }

  /** A serializers.BooleanField that is not required: a missing key is
      skipped (None), JSON null is refused. */
  function BooleanField(i: Input<bool>): (r: Result<Option<bool>, seq<Reason>>)
    ensures r.Success? <==> !i.Null?
    ensures r.Success? ==> (r.value.Some? <==> i.Given?)
    ensures i.Given? ==> r == Success(Some(i.value))
  {
    match i
    case Absent => Success(None)
    case Null => Failure([NotNullable])
    case Given(b) => Success(Some(b))
  }

  /** A serializers.PrimaryKeyRelatedField over the rows with ids `keys`. */
  function PrimaryKeyField(i: Input<int>, keys: set<nat>): (r: Result<nat, seq<Reason>>)
    ensures r.Success? <==> i.Given? && i.value >= 0 && i.value as nat in keys
    ensures r.Success? ==> r.value == i.value && r.value in keys
    ensures r.Failure? ==> |r.error| > 0
  {
    match i
    case Absent => Failure([Required])
    case Null => Failure([NotNullable])
    case Given(v) => if v >= 0 && v as nat in keys then Success(v as nat) else Failure([NoSuchObject])
  }

  // ---------------------------------------------------------------------------
  // ImageField

  /** An uploaded file: its name, its size in bytes, whether the imaging
      library could read it as an image, and whether its extension is one that
      library registers (`validate_image_file_extension`). The library is not
      modelled; both answers come with the upload. */
  datatype Upload = Upload(name: string, size: nat, decodable: bool, imageExtension: bool)

  /** Everything an ImageField demands of an upload, in the order it checks. */
  predicate UploadOk(u: Upload, maxName: nat)
  {
    u.name != [] && u.size > 0 && |u.name| <= maxName && u.decodable && u.imageExtension
  }

  /** A serializers.ImageField on a nullable model field: None clears the file;
      a file needs a name, must not be empty, its name must fit `maxName`, it
      must decode as an image, and then its extension must be an image
      extension. Only the first failing check is reported. */
  function ImageField(o: Option<Upload>, maxName: nat): (r: Result<Option<Upload>, seq<Reason>>)
    ensures o.None? ==> r == Success(None)
    ensures r.Success? ==> r.value == o
    ensures r.Success? <==> o.None? || UploadOk(o.value, maxName)
    ensures o.Some? && o.value.name != [] && o.value.size > 0 && |o.value.name| <= maxName && !o.value.decodable ==>
      r == Failure([NotAnImage])
    ensures o.Some? && o.value.name != [] && o.value.size > 0 && |o.value.name| <= maxName && o.value.decodable ==>
      (o.value.imageExtension <==> r.Success?) && (!o.value.imageExtension ==> r == Failure([BadExtension]))
    ensures r.Failure? ==> |r.error| == 1
  {
    match o
    case None => Success(None)
    case Some(u) =>
      if u.name == [] then Failure([NoFileName])
      else if u.size == 0 then Failure([EmptyFile])
      else if |u.name| > maxName then Failure([TooLong(maxName)])
      else if !u.decodable then Failure([NotAnImage])
      else if !u.imageExtension then Failure([BadExtension])
      else Success(Some(u))
  }
}

/** serializers.DecimalField: DRF's precision bookkeeping on the digit tuple,
    then the range validators, storing the value scaled to `places` decimals. */
module Decimals {
  import opened Wrappers
  import opened Responses
  import opened Fields

  /** A decimal as Python's `Decimal.as_tuple()` sees it: coef × 10^exp
      (the sign is folded into `coef`). */
  datatype Decimal = Decimal(coef: int, exp: int)

  function Abs(x: int): nat
  {
    if x < 0 then -x else x
  }

  function Pow10(n: nat): (p: nat)
    ensures p >= 1
  {
    if n == 0 then 1 else 10 * Pow10(n - 1)
  }

  ghost function Pow10Real(e: int): real
    decreases Abs(e)
  {
    if e == 0 then 1.0 else if e > 0 then 10.0 * Pow10Real(e - 1) else Pow10Real(e + 1) / 10.0
  }

  /** The number a decimal denotes. */
  ghost function Value(d: Decimal): real
  {
    d.coef as real * Pow10Real(d.exp)
  }

  /** The length of the digit tuple of a coefficient (zero has one digit). */
  function DigitCount(n: nat): (k: nat)
    ensures k >= 1 && n < Pow10(k)
    ensures k > 1 ==> Pow10(k - 1) <= n
  {
    if n < 10 then 1 else 1 + DigitCount(n / 10)
  }

  datatype Precision = Precision(total: nat, whole: nat, places: nat)

  /** Total digits, digits before the point and digits after it, counted the
      way DRF's `validate_precision` counts them. */
  function PrecisionOf(d: Decimal): (p: Precision)
    ensures p.places == (if d.exp >= 0 then 0 else -d.exp)
    ensures p.total == p.whole + p.places || (p.whole == 0 && p.total == p.places)
  {
    var digits := DigitCount(Abs(d.coef));
    if d.exp >= 0 then Precision(digits + d.exp, digits + d.exp, 0)
    else if digits > -d.exp then Precision(digits, digits + d.exp, -d.exp)
    else Precision(-d.exp, 0, -d.exp)
  }

  /** The first precision rule a decimal breaks, if any. */
  function PrecisionErrors(p: Precision, maxDigits: nat, places: nat): seq<Reason>
    requires places <= maxDigits
  {
    if p.total > maxDigits then [TooManyDigits(maxDigits)]
    else if p.places > places then [TooManyDecimals(places)]
    else if p.whole > maxDigits - places then [TooManyWholeDigits(maxDigits - places)]
    else []
  }

  /** `d` scaled to `places` decimals; exact once `d` has no more decimals. */
  function Scaled(d: Decimal, places: nat): int
    requires d.exp + places >= 0
  {
    d.coef * Pow10(d.exp + places)
  }

  lemma StepDown(e: int)
    ensures Pow10Real(e) == 10.0 * Pow10Real(e - 1)
    decreases Abs(e)
  {
    if e <= 0 {
      assert Pow10Real(e - 1) == Pow10Real(e) / 10.0;
    }
  }

  lemma {:induction false} PowReal(n: nat)
    ensures Pow10Real(n) == Pow10(n) as real
  {
    if n > 0 {
      PowReal(n - 1);
    }
  }

  lemma {:induction false} PowAdd(a: int, b: nat)
    ensures Pow10Real(a + b) == Pow10Real(a) * Pow10(b) as real
  {
    if b > 0 {
      PowAdd(a, b - 1);
      StepDown(a + b);
    }
  }

  /** Scaling is exact: the stored integer is the value times 10^places. */
  lemma MulAsReal(x: int, y: int)
    ensures (x * y) as real == x as real * y as real
  {
  }

  /** 10^(e + places) = 10^e · 10^places, read as reals. */
  lemma {:induction false} ShiftedPower(e: int, places: nat)
    requires e + places >= 0
    ensures Pow10(e + places) as real == Pow10Real(e) * Pow10(places) as real
  {
    PowAdd(e, places);
    PowReal(e + places);
  }

  lemma {:induction false} ScaledAsReal(d: Decimal, places: nat)
    requires d.exp + places >= 0
    ensures Scaled(d, places) as real == d.coef as real * Pow10(d.exp + places) as real
  {
    MulAsReal(d.coef, Pow10(d.exp + places));
  }

  lemma {:induction false} ScaledFactors(d: Decimal, places: nat)
    requires d.exp + places >= 0
    ensures d.coef as real * Pow10(d.exp + places) as real == d.coef as real * (Pow10Real(d.exp) * Pow10(places) as real)
  {
    ShiftedPower(d.exp, places);
  }

  lemma {:induction false} ValueTimes(d: Decimal, places: nat)
    ensures d.coef as real * (Pow10Real(d.exp) * Pow10(places) as real) == Value(d) * Pow10(places) as real
  {
  }

  /** Scaling is exact: the stored integer is the value times 10^places. */
  lemma {:induction false} ScaledIsExact(d: Decimal, places: nat)
    requires d.exp + places >= 0
    ensures Scaled(d, places) as real == Value(d) * Pow10(places) as real
  {
    ScaledAsReal(d, places);
    ScaledFactors(d, places);
    ValueTimes(d, places);
  }

  /** The DecimalField of a model field with `max_digits`, `decimal_places`,
      and MinValue/MaxValue validators `least`, `most` (given in units of
      10^-places). Precision is checked first and stops at its first error;
      the two range validators are then both run. */
  function DecimalField(i: Input<Decimal>, maxDigits: nat, places: nat, least: int, most: int)
    : (r: Result<int, seq<Reason>>)
    requires places <= maxDigits
    ensures r.Success? ==> i.Given? && PrecisionOf(i.value).places <= places
    ensures r.Success? ==> least <= r.value <= most && r.value == Scaled(i.value, places)
    ensures r.Success? <==> i.Given? && PrecisionErrors(PrecisionOf(i.value), maxDigits, places) == []
                            && least <= Scaled(i.value, places) <= most
    ensures r.Failure? ==> |r.error| > 0
  {
    match i
    case Absent => Failure([Required])
    case Null => Failure([NotNullable])
    case Given(d) =>
      var errs := PrecisionErrors(PrecisionOf(d), maxDigits, places);
      if errs != [] then Failure(errs)
      else
        var v := Scaled(d, places);
        var range := (if v < least then [BelowMin(least)] else []) + (if v > most then [AboveMax(most)] else []);
        if range == [] then Success(v) else Failure(range)
  }

  /** What the DecimalField stores is the submitted number times 10^places,
      with nothing rounded away. */
  lemma {:induction false} DecimalFieldIsExact(d: Decimal, maxDigits: nat, places: nat, least: int, most: int)
    requires places <= maxDigits
    requires DecimalField(Given(d), maxDigits, places, least, most).Success?
    ensures DecimalField(Given(d), maxDigits, places, least, most).value as real == Value(d) * Pow10(places) as real
  {
    StoredIsExact(DecimalField(Given(d), maxDigits, places, least, most).value, d, places);
  }

  lemma {:induction false} StoredIsExact(v: int, d: Decimal, places: nat)
    requires d.exp + places >= 0 && v == Scaled(d, places)
    ensures v as real == Value(d) * Pow10(places) as real
  {
    ScaledIsExact(d, places);
  }

  /** DRF renders a stored value `t` with exactly `places` decimals; reading
      that rendering back gives `t` again. */
  lemma DecimalRoundTrip(t: int, maxDigits: nat, places: nat, least: int, most: int)
    requires places <= maxDigits && least <= t <= most
    requires DigitCount(Abs(t)) <= maxDigits
    ensures DecimalField(Given(Decimal(t, -(places as int))), maxDigits, places, least, most) == Success(t)
  {
    var d := Decimal(t, -(places as int));
    assert PrecisionErrors(PrecisionOf(d), maxDigits, places) == [];
    assert Scaled(d, places) == t;
  }
}
