/** The radius unit converter of `process_circles`: nautical miles and kilometres are scaled to
    metres, any other unit (the pattern admits only M) is taken as metres already. */
module Radius {
  import opened Text
  import opened Decimal
  import opened Results

  /** Metres per nautical mile as the source writes it (1852 plus a legacy 0.001). */
  const MetresPerNauticalMile: real := 1852.001
  const MetresPerKilometre: real := 1000.0

  /** The `if circle[3] == "NM" … elif … == "KM" … else` branch. */
  function ToMetres(value: real, unit: string): (m: real)
    ensures value >= 0.0 ==> m >= value
    ensures value > 0.0 && (unit == "NM" || unit == "KM") ==> m > value
  {
    if unit == "NM" then value * MetresPerNauticalMile
    else if unit == "KM" then value * MetresPerKilometre
    else value
  }

  /** The inverse conversion, a length in metres written in `unit`. */
  function FromMetres(metres: real, unit: string): real {
    if unit == "NM" then metres / MetresPerNauticalMile
    else if unit == "KM" then metres / MetresPerKilometre
    else metres
  }

  /** Conversion is a bijection for every unit, so no two radii in one unit share a length in metres. */
  lemma ConversionRoundTrip(value: real, metres: real, unit: string)
    ensures FromMetres(ToMetres(value, unit), unit) == value
    ensures ToMetres(FromMetres(metres, unit), unit) == metres
  {
  }

  /** Conversion keeps the order of radii. */
  lemma ConversionMonotone(v: real, w: real, unit: string)
    requires v <= w
    ensures ToMetres(v, unit) <= ToMetres(w, unit)
  {
  }

  /** `float(circle[2])` followed by the unit branch. */
  function CircleRadius(text: string, unit: string): (r: Result<real>)
    ensures r.Ok? <==> IsDecimal(text)
    ensures r.Err? ==> r.error == ValueError(text)
    ensures r.Ok? ==> r.value >= DecimalValue(text) >= 0.0
  {
    var v :- ParseFloat(text);
    Ok(ToMetres(v, unit))
  }

  /** A radius the pattern admits converts exactly when it has a digit: "" and "." are refused. */
  lemma RadiusDecodes(text: string, unit: string)
    requires IsRadiusNumeral(text)
    ensures CircleRadius(text, unit).Ok? <==> HasDigit(text)
  {
  }

  /** 5 NM is 9260.005 m, 1 KM is 1000 m, 1 M is 1 m. */
  lemma ConversionExamples()
    ensures ToMetres(5.0, "NM") == 9260.005
    ensures ToMetres(1.0, "KM") == 1000.0
    ensures ToMetres(1.0, "M") == 1.0
  {
  }
}
