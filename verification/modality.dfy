/** The measurement model shared by agent and edge (`piweather-common`'s
    modality module): the typed union of physical quantities, temperature
    unit tagging, and the fixed-length `ModalityArray` that serialises as an
    N-tuple of modalities. Floating-point values are kept opaque. */
module Modalities {
  import opened Wrappers
  import opened Bytes

  /** An `f32`, kept as its IEEE-754 bit pattern; no arithmetic is modelled. */
  datatype F32 = F32(bits: bv32)

  /** The two floating-point unit formulas `(t - 32) / 1.8` and `t * 1.8 + 32`
      are not modelled; callers pass them in as opaque functions. */
  type Formula = F32 -> F32

  datatype Temperature = Celsius(degrees: F32) | Fahrenheit(degrees: F32)

  datatype Wind = Kph(kph: U16) | Mph(mph: U16)

  datatype Particle = PM0_3 | PM0_5 | PM1_0 | PM2_5 | PM5_0 | PM10_0

  datatype AirQuality =
    | Concentration(particle: Particle, micrograms: U16)  // in ug/m3
    | Count(particle: Particle, count: U16)               // particles per 0.1 L of air

  datatype Modality =
    | Humidity(percent: F32)
    | Pressure(pressure: U16)
    | Temperature(temperature: Temperature)
    | Wind(wind: Wind)
    | AirQuality(quality: AirQuality)

  /** `Temperature::to_celsius`: a Celsius value is returned unchanged, a
      Fahrenheit value is converted by `fahrenheitToCelsius`. */
  function ToCelsius(t: Temperature, fahrenheitToCelsius: Formula): (r: Temperature)
    ensures r.Celsius?
    ensures t.Celsius? ==> r == t
    ensures t.Fahrenheit? ==> r.degrees == fahrenheitToCelsius(t.degrees)
  {
    match t
    case Celsius(c) => Celsius(c)
    case Fahrenheit(f) => Celsius(fahrenheitToCelsius(f))
  }

  /** `Temperature::to_fahrenheit`, the mirror image of `ToCelsius`. */
  function ToFahrenheit(t: Temperature, celsiusToFahrenheit: Formula): (r: Temperature)
    ensures r.Fahrenheit?
    ensures t.Fahrenheit? ==> r == t
    ensures t.Celsius? ==> r.degrees == celsiusToFahrenheit(t.degrees)
  {
    match t
    case Celsius(c) => Fahrenheit(celsiusToFahrenheit(c))
    case Fahrenheit(f) => Fahrenheit(f)
  }

  /** Converting to Celsius twice is converting once, whatever the formulas. */
  lemma ToCelsiusIdempotent(t: Temperature, formula: Formula, formula': Formula)
    ensures ToCelsius(ToCelsius(t, formula), formula') == ToCelsius(t, formula)
  {
  }

  lemma ToFahrenheitIdempotent(t: Temperature, formula: Formula, formula': Formula)
    ensures ToFahrenheit(ToFahrenheit(t, formula), formula') == ToFahrenheit(t, formula)
  {
  }

  /** A converted temperature is in the target unit, so its result is a fixed
      point of the conversion: for every temperature, `to_celsius` lands on a
      value that `to_celsius` leaves alone. */
  lemma ConversionLandsOnFixedPoint(t: Temperature, toC: Formula, toF: Formula)
    ensures var c := ToCelsius(t, toC); ToCelsius(c, toC) == c
    ensures var f := ToFahrenheit(t, toF); ToFahrenheit(f, toF) == f
    ensures ToCelsius(t, toC) == t <==> t.Celsius?
    ensures ToFahrenheit(t, toF) == t <==> t.Fahrenheit?
  {
  }

  // ---------------------------------------------------------------------
  // Serialisation of `ModalityArray<N>`
  // ---------------------------------------------------------------------

  /** What a serde serialiser is told: `serialize_tuple(len)`, one
      `serialize_element` per modality, then `end`. */
  datatype Token = TupleStart(len: nat) | Element(item: Modality) | TupleEnd

  /** The serialiser call that failed, numbered from 0 (`serialize_tuple`):
      call k + 1 is element k, call N + 1 is `end`. */
  datatype SerError = SerError(call: nat)

  /** The token stream a serialiser that accepts every call receives. */
  function Tokens(items: seq<Modality>): seq<Token>
  {
    [TupleStart(|items|)] + seq(|items|, i requires 0 <= i < |items| => Element(items[i])) + [TupleEnd]
  }

  /** `ModalityArray::serialize`. The array is `items` (so N == |items|); the
      serialiser is an external collaborator, described by `fails(k)`, which
      says whether its k-th call returns an error. Each `?` stops at the first
      failing call. */
  method Serialize(items: seq<Modality>, fails: nat -> bool) returns (r: Result<seq<Token>, SerError>)
    ensures r.Success? <==> forall k :: 0 <= k <= |items| + 1 ==> !fails(k)
    ensures r.Success? ==> |r.value| == |items| + 2
    ensures r.Success? ==> r.value[0] == TupleStart(|items|) && r.value[|items| + 1] == TupleEnd
    ensures r.Success? ==> forall i :: 0 <= i < |items| ==> r.value[i + 1] == Element(items[i])
    ensures r.Success? ==> r.value == Tokens(items)
    ensures r.Failure? ==> r.error.call <= |items| + 1 && fails(r.error.call)
    ensures r.Failure? ==> forall k :: 0 <= k < r.error.call ==> !fails(k)
  {
    if fails(0) {
      return Failure(SerError(0));
    }
    var out := [TupleStart(|items|)];
    var i := 0;
    while i < |items|
      invariant 0 <= i <= |items|
      invariant forall k :: 0 <= k <= i ==> !fails(k)
      invariant |out| == i + 1 && out[0] == TupleStart(|items|)
      invariant forall j :: 0 <= j < i ==> out[j + 1] == Element(items[j])
    {
      if fails(i + 1) {
        return Failure(SerError(i + 1));
      }
      out := out + [Element(items[i])];
      i := i + 1;
    }
    if fails(|items| + 1) {
      return Failure(SerError(|items| + 1));
    }
    out := out + [TupleEnd];
    r := Success(out);
  }

  // ---------------------------------------------------------------------
  // Deserialisation: `ArrayVisitor::visit_seq`
  // ---------------------------------------------------------------------

  /** One answer of `SeqAccess::next_element`, other than the end of input
      (which is the end of the `input` sequence below). */
  datatype NextElement = Next(item: Modality) | Fault(message: string)

  datatype DeError =
    | InvalidLength(expected: nat)   // `serde::de::Error::invalid_length(N, ..)`
    | Custom(message: string)        // an error propagated from `next_element()?`

  /** The elements `input[..i]` were all successfully read into `acc`. */
  ghost predicate ReadSoFar(input: seq<NextElement>, i: nat, acc: seq<Modality>)
  {
    && i <= |input|
    && |acc| == i
    && forall j :: 0 <= j < i ==> input[j] == Next(acc[j])
  }

  /** Iteration `i` of the `for i in 0..N` loop of `visit_seq`, written as tail
      recursion: `acc` holds the elements read so far. */
  function VisitFrom(n: nat, input: seq<NextElement>, i: nat, acc: seq<Modality>): (r: Result<seq<Modality>, DeError>)
    requires i <= n && ReadSoFar(input, i, acc)
    ensures r.Success? <==> n <= |input| && forall j :: i <= j < n ==> input[j].Next?
    ensures r.Success? ==> |r.value| == n && forall j :: 0 <= j < n ==> input[j] == Next(r.value[j])
    ensures r == Failure(InvalidLength(n)) <==> |input| < n && forall j :: i <= j < |input| ==> input[j].Next?
    ensures r.Failure? ==> r == Failure(InvalidLength(n)) || r.error.Custom?
    ensures r.Failure? && r.error.Custom? ==>
              exists j :: i <= j < n && j < |input| && input[j] == Fault(r.error.message)
                          && forall l :: i <= l < j ==> input[l].Next?
    decreases n - i
  {
    if i == n then Success(acc)
    else if i == |input| then Failure(InvalidLength(n))
    else match input[i]
      case Fault(e) => Failure(Custom(e))
      case Next(m) => VisitFrom(n, input, i + 1, acc + [m])
  }

  /** `ArrayVisitor::<N>::visit_seq`: read exactly N elements. A short input is
      `invalid_length(N)`; an element error is passed on unchanged. */
  function VisitSeq(n: nat, input: seq<NextElement>): (r: Result<seq<Modality>, DeError>)
    ensures r.Success? <==> n <= |input| && forall j :: 0 <= j < n ==> input[j].Next?
    ensures r.Success? ==> |r.value| == n && forall j :: 0 <= j < n ==> r.value[j] == input[j].item
    ensures r == Failure(InvalidLength(n)) <==> |input| < n && forall j :: 0 <= j < |input| ==> input[j].Next?
    ensures r.Failure? ==> r == Failure(InvalidLength(n)) || r.error.Custom?
    ensures r.Failure? && r.error.Custom? ==>
              exists j :: 0 <= j < n && j < |input| && input[j] == Fault(r.error.message)
                          && forall l :: 0 <= l < j ==> input[l].Next?
  {
    VisitFrom(n, input, 0, [])
  }

  /** Whatever follows the N-th element is never consumed. */
  lemma VisitSeqIgnoresSurplus(n: nat, input: seq<NextElement>, more: seq<NextElement>)
    requires n <= |input|
    ensures VisitSeq(n, input + more) == VisitSeq(n, input)
  {
    var r, r' := VisitSeq(n, input + more), VisitSeq(n, input);
    assert forall j :: 0 <= j < n ==> (input + more)[j] == input[j];
    if r.Success? {
      assert r'.Success?;
      assert r.value == r'.value;
    } else {
      assert r.error.Custom?;
      assert r'.Failure? && r'.error.Custom?;
      var j :| 0 <= j < n && j < |input + more| && (input + more)[j] == Fault(r.error.message)
                && forall l :: 0 <= l < j ==> (input + more)[l].Next?;
      var j' :| 0 <= j' < n && j' < |input| && input[j'] == Fault(r'.error.message)
                && forall l :: 0 <= l < j' ==> input[l].Next?;
      assert j == j';
    }
  }

  /** The `next_element` answers a deserialiser produces for a token stream. */
  function ElementsOf(tokens: seq<Token>): (r: seq<NextElement>)
    ensures |r| <= |tokens|
    decreases |tokens|
  {
    if |tokens| == 0 then []
    else if tokens[0].Element? then [Next(tokens[0].item)] + ElementsOf(tokens[1..])
    else ElementsOf(tokens[1..])
  }

  lemma {:induction false} ElementsOfConcat(a: seq<Token>, b: seq<Token>)
    ensures ElementsOf(a + b) == ElementsOf(a) + ElementsOf(b)
    decreases |a|
  {
    if |a| == 0 {
      assert a + b == b;
    } else {
      assert (a + b)[1..] == a[1..] + b;
      ElementsOfConcat(a[1..], b);
    }
  }

  lemma {:induction false} ElementsOfElements(items: seq<Modality>)
    ensures ElementsOf(seq(|items|, i requires 0 <= i < |items| => Element(items[i])))
            == seq(|items|, i requires 0 <= i < |items| => Next(items[i]))
    decreases |items|
  {
    var ts := seq(|items|, i requires 0 <= i < |items| => Element(items[i]));
    if |items| > 0 {
      ElementsOfElements(items[1..]);
      assert ts[1..] == seq(|items[1..]|, i requires 0 <= i < |items[1..]| => Element(items[1..][i]));
    }
  }

  /** Round trip: the elements of a successfully serialised `ModalityArray<N>`,
      read back by `visit_seq` with the same N, give back the array. */
  lemma {:induction false} SerializeThenVisit(items: seq<Modality>)
    ensures VisitSeq(|items|, ElementsOf(Tokens(items))) == Success(items)
  {
    var body := seq(|items|, i requires 0 <= i < |items| => Element(items[i]));
    ElementsOfConcat([TupleStart(|items|)] + body, [TupleEnd]);
    ElementsOfConcat([TupleStart(|items|)], body);
    ElementsOfElements(items);
    assert ElementsOf([TupleStart(|items|)]) == [];
    assert ElementsOf([TupleEnd]) == [];
    var input := ElementsOf(Tokens(items));
    assert input == seq(|items|, i requires 0 <= i < |items| => Next(items[i]));
    var r := VisitSeq(|items|, input);
    assert r.Success?;
    assert r.value == items;
  }
}
