/** The fixed-width sexagesimal decoder: a token is sliced into degrees, minutes and seconds and
    read as degrees + minutes/60 + seconds/3600. Latitude uses widths 2/2/rest, longitude 3/2/rest.
    Circle tokens are bare numerals; polygon tokens still carry their hemisphere letter, which the
    seconds slice `[k:-1]` cuts off. The hemisphere never changes the sign. */
module Coordinates {
  import opened Text
  import opened Decimal
  import opened Results

  /** The three `float()` calls in source order, then the combination. */
  function Sexagesimal(deg: string, min: string, sec: string): (r: Result<real>)
    ensures r.Ok? <==> IsDecimal(deg) && IsDecimal(min) && IsDecimal(sec)
    ensures r.Ok? ==> r.value >= 0.0
    ensures r.Err? ==> r.error == ValueError(if !IsDecimal(deg) then deg else if !IsDecimal(min) then min else sec)
  {
    var d :- ParseFloat(deg);
    var m :- ParseFloat(min);
    var s :- ParseFloat(sec);
    Ok(d + m / 60.0 + s / 3600.0)
  }

  /** The combination when all three fields are read. */
  lemma SexagesimalValue(deg: string, min: string, sec: string, d: real, m: real, sc: real)
    requires ParseFloat(deg) == Ok(d) && ParseFloat(min) == Ok(m) && ParseFloat(sec) == Ok(sc)
    ensures Sexagesimal(deg, min, sec) == Ok(d + m / 60.0 + sc / 3600.0)
  {
  }

  /** Digits of degrees and minutes and a numeral of seconds are combined as they read. */
  lemma FieldsValue(deg: string, min: string, sec: string)
    requires AllDigits(deg) && deg != [] && AllDigits(min) && min != [] && IsDecimal(sec)
    ensures Sexagesimal(deg, min, sec)
         == Ok(DigitsValue(deg) as real + DigitsValue(min) as real / 60.0 + DecimalValue(sec) / 3600.0)
  {
    ParseFloatDigits(deg);
    ParseFloatDigits(min);
    ParseFloatValue(sec);
    SexagesimalValue(deg, min, sec, DigitsValue(deg) as real, DigitsValue(min) as real, DecimalValue(sec));
  }

  /** Circle latitude: `tok[0:2]`, `tok[2:4]`, `tok[4:]`. */
  function Latitude(tok: string): (r: Result<real>)
    ensures r.Ok? ==> r.value >= 0.0
    ensures r.Err? ==> r.error.ValueError?
  {
    Sexagesimal(PySlice(tok, 0, 2), PySlice(tok, 2, 4), PySlice(tok, 4, |tok|))
  }

  /** Circle longitude: `tok[0:3]`, `tok[3:5]`, `tok[5:len(tok)]`. */
  function Longitude(tok: string): (r: Result<real>)
    ensures r.Ok? ==> r.value >= 0.0
    ensures r.Err? ==> r.error.ValueError?
  {
    Sexagesimal(PySlice(tok, 0, 3), PySlice(tok, 3, 5), PySlice(tok, 5, |tok|))
  }

  /** Polygon latitude, hemisphere letter still attached: `tok[0:2]`, `tok[2:4]`, `tok[4:-1]`. */
  function PolygonLatitude(tok: string): (r: Result<real>)
    ensures r.Ok? ==> r.value >= 0.0
    ensures r.Err? ==> r.error.ValueError?
  {
    Sexagesimal(PySlice(tok, 0, 2), PySlice(tok, 2, 4), PySlice(tok, 4, -1))
  }

  /** Polygon longitude, hemisphere letter still attached: `tok[0:3]`, `tok[3:5]`, `tok[5:-1]`. */
  function PolygonLongitude(tok: string): (r: Result<real>)
    ensures r.Ok? ==> r.value >= 0.0
    ensures r.Err? ==> r.error.ValueError?
  {
    Sexagesimal(PySlice(tok, 0, 3), PySlice(tok, 3, 5), PySlice(tok, 5, -1))
  }

  /** A slice of a coordinate numeral two or more wide, or reaching its end, is either empty or
      something `float()` accepts; it is empty exactly when it starts at or past the end. */
  lemma {:induction false} NumeralSlice(tok: string, lo: nat, hi: nat)
    requires IsCoordinateNumeral(tok)
    requires lo + 2 <= hi || hi == |tok|
    ensures PySlice(tok, lo, hi) == [] <==> |tok| <= lo
    ensures PySlice(tok, lo, hi) == [] || IsDecimal(PySlice(tok, lo, hi))
  {
    if lo < |tok| {
      var b := if hi <= |tok| then hi else |tok|;
      var t := tok[lo..b];
      assert PySlice(tok, lo, hi) == t;
      assert AllNumeralChars(t) by {
        forall j | 0 <= j < |t| ensures IsNumeralChar(t[j]) { assert t[j] == tok[lo + j]; }
      }
      assert AtMostOneDot(t) by {
        forall i, j | 0 <= i < j < |t| && t[i] == '.' ensures t[j] != '.' {
          assert t[i] == tok[lo + i] && t[j] == tok[lo + j];
        }
      }
      assert HasDigit(t) by {
        var last := b - 1;
        if tok[last] != '.' {
          assert IsDigit(t[last - lo]);
        } else {
          assert last < |tok| - 1;
          assert b - lo >= 2;
          assert tok[last - 1] != '.';
          assert IsDigit(t[last - 1 - lo]);
        }
      }
    }
  }

  /** Decoding a grammatical circle latitude succeeds exactly when the token has at least five
      characters; otherwise some slice is empty and `float('')` raises. */
  lemma {:induction false} LatitudeDecodes(tok: string)
    requires IsCoordinateNumeral(tok)
    ensures Latitude(tok).Ok? <==> |tok| >= 5
    ensures Latitude(tok).Err? ==> Latitude(tok).error == ValueError("")
  {
    NumeralSlice(tok, 0, 2);
    NumeralSlice(tok, 2, 4);
    NumeralSlice(tok, 4, |tok|);
  }

  /** Decoding a grammatical circle longitude succeeds exactly when the token has at least six
      characters; otherwise some slice is empty and `float('')` raises. */
  lemma {:induction false} LongitudeDecodes(tok: string)
    requires IsCoordinateNumeral(tok)
    ensures Longitude(tok).Ok? <==> |tok| >= 6
    ensures Longitude(tok).Err? ==> Longitude(tok).error == ValueError("")
  {
    NumeralSlice(tok, 0, 3);
    NumeralSlice(tok, 3, 5);
    NumeralSlice(tok, 5, |tok|);
  }

  /** The latitude field widths: two digits of degrees, two of minutes, the rest seconds. */
  lemma {:induction false} LatitudeFields(deg: string, min: string, sec: string)
    requires |deg| == 2 && AllDigits(deg) && |min| == 2 && AllDigits(min) && IsDecimal(sec)
    ensures Latitude(deg + min + sec)
         == Ok(DigitsValue(deg) as real + DigitsValue(min) as real / 60.0 + DecimalValue(sec) / 3600.0)
  {
    var tok := deg + min + sec;
    ThreeParts(deg, min, sec);
    assert PySlice(tok, 0, 2) == deg by { assert tok[0..2] == tok[..2]; }
    assert PySlice(tok, 2, 4) == min;
    assert PySlice(tok, 4, |tok|) == sec by { assert tok[4..|tok|] == tok[4..]; }
    assert Latitude(tok) == Sexagesimal(deg, min, sec);
    FieldsValue(deg, min, sec);
  }

  /** The longitude field widths: three digits of degrees, two of minutes, the rest seconds. */
  lemma {:induction false} LongitudeFields(deg: string, min: string, sec: string)
    requires |deg| == 3 && AllDigits(deg) && |min| == 2 && AllDigits(min) && IsDecimal(sec)
    ensures Longitude(deg + min + sec)
         == Ok(DigitsValue(deg) as real + DigitsValue(min) as real / 60.0 + DecimalValue(sec) / 3600.0)
  {
    var tok := deg + min + sec;
    ThreeParts(deg, min, sec);
    assert PySlice(tok, 0, 3) == deg by { assert tok[0..3] == tok[..3]; }
    assert PySlice(tok, 3, 5) == min;
    assert PySlice(tok, 5, |tok|) == sec by { assert tok[5..|tok|] == tok[5..]; }
    assert Longitude(tok) == Sexagesimal(deg, min, sec);
    FieldsValue(deg, min, sec);
  }

  /** A polygon latitude token is its numeral plus a letter; once the numeral has four characters
      the letter falls entirely outside the three slices, whatever it is. */
  lemma {:induction false} PolygonLatitudeDropsLetter(num: string, letter: char)
    requires |num| >= 4
    ensures PolygonLatitude(num + [letter]) == Latitude(num)
  {
    var tok := num + [letter];
    SliceToLast(tok, 4);
    assert PySlice(tok, 0, 2) == PySlice(num, 0, 2);
    assert PySlice(tok, 2, 4) == PySlice(num, 2, 4);
    assert PySlice(tok, 4, -1) == PySlice(num, 4, |num|);
  }

  /** A polygon longitude token is its numeral plus a letter; once the numeral has five characters
      the letter falls entirely outside the three slices, whatever it is. */
  lemma {:induction false} PolygonLongitudeDropsLetter(num: string, letter: char)
    requires |num| >= 5
    ensures PolygonLongitude(num + [letter]) == Longitude(num)
  {
    var tok := num + [letter];
    SliceToLast(tok, 5);
    assert PySlice(tok, 0, 3) == PySlice(num, 0, 3);
    assert PySlice(tok, 3, 5) == PySlice(num, 3, 5);
    assert PySlice(tok, 5, -1) == PySlice(num, 5, |num|);
  }

  /** A slice that ends with the hemisphere letter is refused by `float()`. */
  lemma EndsWithLetter(t: string)
    requires t != [] && !IsNumeralChar(t[|t| - 1])
    ensures !IsDecimal(t)
  {
  }

  /** Decoding a grammatical polygon latitude succeeds exactly when its numeral has at least
      five characters, whichever letter follows it. */
  lemma {:induction false} PolygonLatitudeDecodes(num: string, letter: char)
    requires IsCoordinateNumeral(num) && !IsNumeralChar(letter)
    ensures PolygonLatitude(num + [letter]).Ok? <==> |num| >= 5
  {
    var tok := num + [letter];
    if |num| >= 4 {
      PolygonLatitudeDropsLetter(num, letter);
      LatitudeDecodes(num);
    } else if |tok| <= 2 {
      EndsWithLetter(PySlice(tok, 0, 2));
    } else {
      NumeralSlice(num, 0, 2);
      assert PySlice(tok, 0, 2) == PySlice(num, 0, 2);
      EndsWithLetter(PySlice(tok, 2, 4));
    }
  }

  /** Decoding a grammatical polygon longitude succeeds exactly when its numeral has at least
      six characters, whichever letter follows it. */
  lemma {:induction false} PolygonLongitudeDecodes(num: string, letter: char)
    requires IsCoordinateNumeral(num) && !IsNumeralChar(letter)
    ensures PolygonLongitude(num + [letter]).Ok? <==> |num| >= 6
  {
    var tok := num + [letter];
    if |num| >= 5 {
      PolygonLongitudeDropsLetter(num, letter);
      LongitudeDecodes(num);
    } else if |tok| <= 3 {
      EndsWithLetter(PySlice(tok, 0, 3));
    } else {
      NumeralSlice(num, 0, 3);
      assert PySlice(tok, 0, 3) == PySlice(num, 0, 3);
      EndsWithLetter(PySlice(tok, 3, 5));
    }
  }

  /** The value of two digits. */
  lemma DigitsOfTwo(a: char, b: char)
    requires IsDigit(a) && IsDigit(b)
    ensures DigitsValue([a, b]) == DigitValue(a) * 10 + DigitValue(b)
  {
    assert [a, b][..1] == [a];
    assert [a][..0] == [];
    assert DigitsValue([a]) == DigitValue(a);
  }

  /** The value of three digits. */
  lemma DigitsOfThree(a: char, b: char, c: char)
    requires IsDigit(a) && IsDigit(b) && IsDigit(c)
    ensures DigitsValue([a, b, c]) == DigitValue(a) * 100 + DigitValue(b) * 10 + DigitValue(c)
  {
    assert [a, b, c][..2] == [a, b];
    DigitsOfTwo(a, b);
  }

  /** The worked example 401200N 0734500W decodes to (40.2, 73.75): the W does not make the
      longitude negative. */
  lemma DecodeExample()
    ensures Latitude("401200") == Ok(40.2)
    ensures Longitude("0734500") == Ok(73.75)
  {
    LatitudeExample();
    LongitudeExample();
  }

  /** Two-digit slices of an all-digit token, read by `float()`. */
  lemma DigitPairAt(tok: string, i: nat)
    requires i + 2 <= |tok| && AllDigits(tok)
    ensures ParseFloat(tok[i..i + 2]) == Ok((DigitValue(tok[i]) * 10 + DigitValue(tok[i + 1])) as real)
  {
    var t := tok[i..i + 2];
    assert t == [tok[i], tok[i + 1]];
    DigitsOfTwo(tok[i], tok[i + 1]);
    ParseFloatDigits(t);
  }

  /** The first three digits of an all-digit token, read by `float()`. */
  lemma DigitTripleAt(tok: string)
    requires 3 <= |tok| && AllDigits(tok)
    ensures ParseFloat(tok[0..3])
         == Ok((DigitValue(tok[0]) * 100 + DigitValue(tok[1]) * 10 + DigitValue(tok[2])) as real)
  {
    var t := tok[0..3];
    assert t == [tok[0], tok[1], tok[2]];
    DigitsOfThree(tok[0], tok[1], tok[2]);
    ParseFloatDigits(t);
  }

  /** A six-digit latitude token: two digits each of degrees, minutes and seconds. */
  lemma SixDigitLatitude(tok: string)
    requires |tok| == 6 && AllDigits(tok)
    ensures Latitude(tok) == Ok(
      (DigitValue(tok[0]) * 10 + DigitValue(tok[1])) as real
      + (DigitValue(tok[2]) * 10 + DigitValue(tok[3])) as real / 60.0
      + (DigitValue(tok[4]) * 10 + DigitValue(tok[5])) as real / 3600.0)
  {
    assert PySlice(tok, 0, 2) == tok[0..2];
    assert PySlice(tok, 2, 4) == tok[2..4];
    assert PySlice(tok, 4, |tok|) == tok[4..6];
    DigitPairAt(tok, 0);
    DigitPairAt(tok, 2);
    DigitPairAt(tok, 4);
  }

  /** A seven-digit longitude token: three digits of degrees, two each of minutes and seconds. */
  lemma SevenDigitLongitude(tok: string)
    requires |tok| == 7 && AllDigits(tok)
    ensures Longitude(tok) == Ok(
      (DigitValue(tok[0]) * 100 + DigitValue(tok[1]) * 10 + DigitValue(tok[2])) as real
      + (DigitValue(tok[3]) * 10 + DigitValue(tok[4])) as real / 60.0
      + (DigitValue(tok[5]) * 10 + DigitValue(tok[6])) as real / 3600.0)
  {
    DigitTripleAt(tok);
    assert PySlice(tok, 0, 3) == tok[0..3];
    assert PySlice(tok, 3, 5) == tok[3..5];
    assert PySlice(tok, 5, |tok|) == tok[5..7];
    DigitPairAt(tok, 3);
    DigitPairAt(tok, 5);
  }

  lemma LatitudeExample()
    ensures Latitude("401200") == Ok(40.2)
  {
    SixDigitLatitude("401200");
  }

  lemma LongitudeExample()
    ensures Longitude("0734500") == Ok(73.75)
  {
    SevenDigitLongitude("0734500");
  }
}
