/** timeconf.c: the coordinates of a zone, in the string form of ISO 6709, and their place on the map. */
module Coordinates {
  import opened GLists

  // ---- C integers ----

  /** C's / and %, which round toward zero. */
  function Quot(a: int, b: int): int
    requires b > 0
  {
    if a >= 0 then a / b else -((-a) / b)
  }

  function Rem(a: int, b: int): int
    requires b > 0
  {
    a - b * Quot(a, b)
  }

  predicate IsDigit(c: char) { '0' <= c <= '9' }
  predicate IsSign(c: char) { c == '+' || c == '-' }
  predicate IsSpace(c: char) { c == ' ' || ('\t' <= c <= '\r') }

  function Digits(s: string, acc: int): int {
    if s == "" || !IsDigit(s[0]) then acc else Digits(s[1..], 10 * acc + (s[0] as int - '0' as int))
  }

  /** atoi, on numbers that fit an int. */
  function Atoi(s: string): int {
    if s == "" then 0
    else if IsSpace(s[0]) then Atoi(s[1..])
    else if s[0] == '-' then -Digits(s[1..], 0)
    else if s[0] == '+' then Digits(s[1..], 0)
    else Digits(s, 0)
  }

  /** White space before a number does not count: blanks, tabs, newlines, vertical tabs, form feeds, returns. */
  lemma {:induction false} AtoiSkipsSpace(space: string, s: string)
    requires forall k :: 0 <= k < |space| ==> space[k] == ' ' || (9 <= space[k] as int <= 13)
    ensures Atoi(space + s) == Atoi(s)
  {
    if space != "" {
      assert (space + s)[1..] == space[1..] + s;
      AtoiSkipsSpace(space[1..], s);
    } else {
      assert space + s == s;
    }
  }

  /** What follows the digits does not count, whatever the sign. */
  lemma {:induction false} DigitsStop(digits: string, rest: string, acc: int)
    requires rest == "" || !('0' <= rest[0] <= '9')
    requires forall k :: 0 <= k < |digits| ==> '0' <= digits[k] <= '9'
    ensures Digits(digits + rest, acc) == Digits(digits, acc)
  {
    if digits != "" {
      assert (digits + rest)[1..] == digits[1..] + rest;
      DigitsStop(digits[1..], rest, 10 * acc + (digits[0] as int - '0' as int));
    } else {
      assert digits + rest == rest;
    }
  }

  // ---- parselatlong ----

  /** One coordinate: with at least `limit` the number carries seconds. */
  function Degrees(v: int, limit: int): real {
    if v >= limit || v <= -limit then
      Quot(v, 10000) as real + Rem(Quot(v, 100), 100) as real / 60.0 + Rem(v, 100) as real / 3600.0
    else
      Quot(v, 100) as real + Rem(v, 100) as real / 60.0
  }

  /** The first sign from position k on, or the length of the string. */
  function SignFrom(s: string, k: nat): (r: nat)
    requires k <= |s|
    ensures k <= r <= |s|
    ensures r < |s| ==> IsSign(s[r])
    ensures forall j :: k <= j < r ==> !IsSign(s[j])
    decreases |s| - k
  {
    if k == |s| || IsSign(s[k]) then k else SignFrom(s, k + 1)
  }

  function ParseLatLong(latlong: string): Option<(real, real)> {
    if |latlong| < 2 then None
    else
      var mark := SignFrom(latlong, 1);
      if mark == |latlong| then None
      else Some((Degrees(Atoi(latlong), 100000), Degrees(Atoi(latlong[mark..]), 1000000)))
  }

  /** parselatlong: the pointer loop, then the arithmetic; None when it returns without writing its results. */
  method ParseLatLongLoop(latlong: string) returns (r: Option<(real, real)>)
    ensures r == ParseLatLong(latlong)
  {
    if |latlong| < 2 { return None; }
    var mark := 1;
    while !IsSign(latlong[mark])
      invariant 1 <= mark < |latlong| && SignFrom(latlong, 1) == SignFrom(latlong, mark)
      decreases |latlong| - mark
    {
      mark := mark + 1;
      if mark == |latlong| { return None; }
    }
    var longi, lati := Atoi(latlong[mark..]), Atoi(latlong);
    var deg, min, sec;
    if lati >= 100000 || lati <= -100000 {
      sec, min, deg := Rem(lati, 100), Rem(Quot(lati, 100), 100), Quot(lati, 10000);
    } else {
      sec, min, deg := 0, Rem(lati, 100), Quot(lati, 100);
    }
    var latdec := deg as real + min as real / 60.0 + sec as real / 3600.0;
    if longi >= 1000000 || longi <= -1000000 {
      sec, min, deg := Rem(longi, 100), Rem(Quot(longi, 100), 100), Quot(longi, 10000);
    } else {
      sec, min, deg := 0, Rem(longi, 100), Quot(longi, 100);
    }
    r := Some((latdec, deg as real + min as real / 60.0 + sec as real / 3600.0));
  }

  /** When nothing is written: the string has no sign behind its first character. */
  lemma NoSecondSign(latlong: string)
    ensures ParseLatLong(latlong) == None <==>
            |latlong| < 2 || forall k :: 1 <= k < |latlong| ==> latlong[k] !in {'+', '-'}
  {
  }

  // ---- the format ----

  /** A latitude or longitude: sign, degrees, minutes and, in the longer form, seconds. */
  datatype Angle = Angle(negative: bool, deg: nat, min: nat, sec: Option<nat>)

  predicate ValidAngle(a: Angle, limit: nat) {
    a.deg < limit && a.min < 60 && (a.sec.Some? ==> a.sec.value < 60)
  }

  function Digit(n: nat): char
    requires n < 10
  {
    '0' + (n as char)
  }

  function TwoDigits(n: nat): string
    requires n < 100
  {
    [Digit(n / 10), Digit(n % 10)]
  }

  function ThreeDigits(n: nat): string
    requires n < 1000
  {
    [Digit(n / 100)] + TwoDigits(n % 100)
  }

  function SignOf(a: Angle): string { if a.negative then "-" else "+" }

  function Tail(a: Angle): string
    requires ValidAngle(a, 1000)
  {
    TwoDigits(a.min) + (if a.sec.Some? then TwoDigits(a.sec.value) else "")
  }

  function LatText(a: Angle): string
    requires ValidAngle(a, 100)
  {
    SignOf(a) + (TwoDigits(a.deg) + Tail(a))
  }

  function LonText(a: Angle): string
    requires ValidAngle(a, 1000)
  {
    SignOf(a) + (ThreeDigits(a.deg) + Tail(a))
  }

  function Signed(a: Angle, x: real): real { if a.negative then -x else x }

  /** The angle in degrees. */
  function Exact(a: Angle): real {
    Signed(a, a.deg as real + a.min as real / 60.0 + (if a.sec.Some? then a.sec.value as real / 3600.0 else 0.0))
  }

  /** The digits of the angle read as one number, without the sign. */
  function Number(a: Angle): int {
    if a.sec.Some? then 10000 * a.deg + 100 * a.min + a.sec.value else 100 * a.deg + a.min
  }

  predicate AllDigits(s: string) { forall k :: 0 <= k < |s| ==> IsDigit(s[k]) }

  lemma {:induction false} DigitsAppend(ds: string, rest: string, acc: int)
    requires AllDigits(ds)
    ensures Digits(ds + rest, acc) == Digits(rest, Digits(ds, acc))
  {
    if ds == "" {
      assert ds + rest == rest;
    } else {
      assert (ds + rest)[1..] == ds[1..] + rest;
      assert (ds + rest)[0] == ds[0];
      DigitsAppend(ds[1..], rest, 10 * acc + (ds[0] as int - '0' as int));
    }
  }

  lemma DigitValue(n: nat)
    requires n < 10
    ensures IsDigit(Digit(n)) && Digit(n) as int - '0' as int == n
  {
  }

  lemma TwoDigitsValue(n: nat, acc: int)
    requires n < 100
    ensures AllDigits(TwoDigits(n)) && Digits(TwoDigits(n), acc) == 100 * acc + n
  {
    DigitValue(n / 10);
    DigitValue(n % 10);
    var s := TwoDigits(n);
    assert s[1..] == [Digit(n % 10)] && s[1..][1..] == "";
    assert Digits(s[1..], 10 * acc + n / 10) == 10 * (10 * acc + n / 10) + n % 10;
  }

  lemma ThreeDigitsValue(n: nat)
    requires n < 1000
    ensures AllDigits(ThreeDigits(n)) && Digits(ThreeDigits(n), 0) == n
  {
    DigitValue(n / 100);
    TwoDigitsValue(n % 100, n / 100);
    assert ThreeDigits(n)[1..] == TwoDigits(n % 100);
  }

  /** The digits of an angle, degrees first, read as its number; nothing after a non-digit counts. */
  lemma AngleDigits(a: Angle, degrees: string, rest: string)
    requires ValidAngle(a, 1000)
    requires AllDigits(degrees) && Digits(degrees, 0) == a.deg
    requires rest == "" || !IsDigit(rest[0])
    ensures AllDigits(degrees + Tail(a))
    ensures Digits(degrees + Tail(a) + rest, 0) == Number(a)
  {
    TwoDigitsValue(a.min, a.deg);
    if a.sec.Some? {
      TwoDigitsValue(a.sec.value, 100 * a.deg + a.min);
      DigitsAppend(TwoDigits(a.min), TwoDigits(a.sec.value), a.deg);
    } else {
      assert Tail(a) == TwoDigits(a.min);
    }
    assert Digits(Tail(a), a.deg) == Number(a);
    DigitsAppend(degrees, Tail(a), 0);
    DigitsAppend(degrees + Tail(a), rest, 0);
  }

  lemma AtoiSigned(a: Angle, ds: string)
    ensures Atoi(SignOf(a) + ds) == if a.negative then -Digits(ds, 0) else Digits(ds, 0)
  {
    var s := SignOf(a) + ds;
    assert s[1..] == ds;
    assert s[0] == (if a.negative then '-' else '+') && !IsSpace(s[0]);
  }

  lemma QuotRemNat(v: int)
    requires v >= 0
    ensures Quot(-v, 100) == -(v / 100) && Rem(-v, 100) == -(v % 100)
    ensures Quot(-v, 10000) == -(v / 10000) && Rem(Quot(-v, 100), 100) == -(v / 100 % 100)
    ensures Rem(v, 100) == v % 100 && Rem(Quot(v, 100), 100) == v / 100 % 100
  {
    var q := v / 100;
    assert Quot(-q, 100) == -(q / 100);
  }

  /** Truncating division treats both signs alike. */
  lemma DegreesSigned(v: int, limit: int)
    requires v >= 0 && limit > 0
    ensures Degrees(-v, limit) == -Degrees(v, limit)
  {
    QuotRemNat(v);
  }

  lemma Parts(d: nat, m: nat, s: nat)
    requires m < 100 && s < 100
    ensures var v := 10000 * d + 100 * m + s;
            v / 100 == 100 * d + m && v % 100 == s && v / 10000 == d && v / 100 % 100 == m
  {
    var v := 10000 * d + 100 * m + s;
    assert v == 100 * (100 * d + m) + s;
    assert v / 100 == 100 * d + m;
    assert v / 10000 == d;
  }

  /** Reading an angle's number gives its degrees, unless it has seconds and falls short of the limit. */
  lemma DegreesExact(a: Angle, limit: nat)
    requires ValidAngle(a, 1000) && limit >= 100000
    requires a.sec == None ==> Number(a) < limit
    ensures Degrees(SignedNumber(a), limit) == Exact(a) <==>
            a.sec == None || Number(a) >= limit || Number(a) == 0
  {
    var v := Number(a);
    DegreesSigned(v, limit);
    QuotRemNat(v);
    if a.sec.Some? {
      Parts(a.deg, a.min, a.sec.value);
    } else {
      assert v / 100 == a.deg && v % 100 == a.min;
    }
  }

  /** Seconds are recognised by the size of the number: an angle with them is misread when its degrees do not
      fill the first digit, unless it is zero throughout. */
  predicate LatReadable(a: Angle) { a.sec == None || a.deg >= 10 || Number(a) == 0 }
  predicate LonReadable(a: Angle) { a.sec == None || a.deg >= 100 || Number(a) == 0 }

  function SignedNumber(a: Angle): int { if a.negative then -Number(a) else Number(a) }

  lemma LatNumber(lat: Angle, rest: string)
    requires ValidAngle(lat, 100) && (rest == "" || !IsDigit(rest[0]))
    ensures Atoi(LatText(lat) + rest) == SignedNumber(lat)
  {
    TwoDigitsValue(lat.deg, 0);
    AngleDigits(lat, TwoDigits(lat.deg), rest);
    assert LatText(lat) + rest == SignOf(lat) + (TwoDigits(lat.deg) + Tail(lat) + rest);
    AtoiSigned(lat, TwoDigits(lat.deg) + Tail(lat) + rest);
  }

  lemma LonNumber(lon: Angle)
    requires ValidAngle(lon, 1000)
    ensures Atoi(LonText(lon)) == SignedNumber(lon)
  {
    ThreeDigitsValue(lon.deg);
    AngleDigits(lon, ThreeDigits(lon.deg), "");
    assert ThreeDigits(lon.deg) + Tail(lon) + "" == ThreeDigits(lon.deg) + Tail(lon);
    AtoiSigned(lon, ThreeDigits(lon.deg) + Tail(lon));
  }

  lemma LatRead(lat: Angle)
    requires ValidAngle(lat, 100)
    ensures Degrees(SignedNumber(lat), 100000) == Exact(lat) <==> LatReadable(lat)
  {
    DegreesExact(lat, 100000);
  }

  lemma LonRead(lon: Angle)
    requires ValidAngle(lon, 1000)
    ensures Degrees(SignedNumber(lon), 1000000) == Exact(lon) <==> LonReadable(lon)
  {
    DegreesExact(lon, 1000000);
  }

  lemma SecondSign(lat: Angle, lon: Angle)
    requires ValidAngle(lat, 100) && ValidAngle(lon, 1000)
    ensures SignFrom(LatText(lat) + LonText(lon), 1) == |LatText(lat)|
  {
    var s, n := LatText(lat) + LonText(lon), |LatText(lat)|;
    TwoDigitsValue(lat.deg, 0);
    AngleDigits(lat, TwoDigits(lat.deg), "");
    var ds := TwoDigits(lat.deg) + Tail(lat);
    assert forall k :: 1 <= k < n ==> s[k] == ds[k - 1] && !IsSign(s[k]);
    assert s[n] == LonText(lon)[0] == SignOf(lon)[0];
  }

  /** The parser returns the exact signed degrees exactly when both angles are readable. */
  lemma ParsesExactly(lat: Angle, lon: Angle)
    requires ValidAngle(lat, 100) && ValidAngle(lon, 1000)
    ensures ParseLatLong(LatText(lat) + LonText(lon)) == Some((Exact(lat), Exact(lon))) <==>
            LatReadable(lat) && LonReadable(lon)
  {
    var s := LatText(lat) + LonText(lon);
    SecondSign(lat, lon);
    assert s[|LatText(lat)|..] == LonText(lon);
    assert LonText(lon)[0] == SignOf(lon)[0] && !IsDigit(LonText(lon)[0]);
    LatNumber(lat, LonText(lon));
    LonNumber(lon);
    LatRead(lat);
    LonRead(lon);
  }

  const NEW_YORK: (Angle, Angle) := (Angle(false, 40, 42, Some(51)), Angle(true, 74, 0, Some(23)))

  lemma NewYorkText()
    ensures LatText(NEW_YORK.0) == "+404251" && LonText(NEW_YORK.1) == "-0740023"
  {
  }

  /** New York in the long form: the latitude is read exactly, 74 degrees west as 7400. */
  lemma LongFormMisread()
    ensures ParseLatLong("+404251-0740023") == Some((Exact(NEW_YORK.0), -7400.0 - 23.0 / 60.0))
    ensures -75.0 < Exact(NEW_YORK.1) < -74.0
  {
    var lat, lon := NEW_YORK.0, NEW_YORK.1;
    NewYorkText();
    var s := LatText(lat) + LonText(lon);
    assert s == "+404251-0740023";
    SecondSign(lat, lon);
    assert s[|LatText(lat)|..] == LonText(lon);
    LatNumber(lat, LonText(lon));
    LonNumber(lon);
    LatRead(lat);
    QuotRemNat(740023);
  }

  // ---- the map ----

  /** A C cast from floating point to int. */
  function Truncate(x: real): int { if x >= 0.0 then x.Floor else -((-x).Floor) }

  /** A cast drops the fraction: it stays within one of the number, on the side of zero, and keeps the symmetry. */
  lemma TruncateTowardZero(x: real)
    ensures Truncate(-x) == -Truncate(x)
    ensures x >= 0.0 ==> Truncate(x) as real <= x < Truncate(x) as real + 1.0
    ensures x <= 0.0 ==> Truncate(x) as real - 1.0 < x <= Truncate(x) as real
  {
  }

  function XCoord(width: nat, lon: real): int { Truncate(width as real / 2.0 + width as real / 2.0 * lon / 180.0) }
  function YCoord(height: nat, lat: real): int { Truncate(height as real / 2.0 - height as real / 2.0 * lat / 90.0) }

  lemma ScaleBound(half: real, x: real, limit: real)
    requires half >= 0.0 && limit > 0.0 && -limit <= x <= limit
    ensures -half <= half * x / limit <= half
    ensures half > 0.0 ==> (half * x / limit == half <==> x == limit) && (half * x / limit == -half <==> x == -limit)
  {
    assert half * x <= half * limit;
    assert half * x >= half * -limit;
    if half > 0.0 && x != limit { assert half * (limit - x) > 0.0; }
    if half > 0.0 && x != -limit { assert half * (x + limit) > 0.0; }
  }

  /** A point of the globe lands on the map, edges included: on the right edge only at longitude +180, on the
      bottom edge only at latitude -90. */
  lemma InsideTheMap(width: nat, height: nat, lat: real, lon: real)
    requires -90.0 <= lat <= 90.0 && -180.0 <= lon <= 180.0
    ensures 0 <= XCoord(width, lon) <= width && 0 <= YCoord(height, lat) <= height
    ensures width > 0 ==> (XCoord(width, lon) == width <==> lon == 180.0)
    ensures height > 0 ==> (YCoord(height, lat) == height <==> lat == -90.0)
  {
    ScaleBound(width as real / 2.0, lon, 180.0);
    ScaleBound(height as real / 2.0, lat, 90.0);
  }

  lemma TruncateKeepsOrder(x: real, y: real)
    requires x <= y
    ensures Truncate(x) <= Truncate(y)
  {
  }

  lemma ProductOrder(half: real, a: real, b: real, x: real, y: real)
    requires half >= 0.0 && a <= b && x == half * a && y == half * b
    ensures x <= y
  {
    assert half * (b - a) >= 0.0;
  }

  lemma Places(size: nat, half: real, turn: real, x: real)
    requires half == size as real / 2.0 && x == half * turn
    ensures XCoord(size, turn) == Truncate(half + x / 180.0) && YCoord(size, turn) == Truncate(half - x / 90.0)
  {
  }

  lemma PlacesKeepOrder(size: nat, half: real, a: real, b: real, x: real, y: real)
    requires half == size as real / 2.0 && a <= b && x == half * a && y == half * b
    ensures XCoord(size, a) <= XCoord(size, b) && YCoord(size, b) <= YCoord(size, a)
  {
    ProductOrder(half, a, b, x, y);
    Places(size, half, a, x);
    Places(size, half, b, y);
    TruncateKeepsOrder(half + x / 180.0, half + y / 180.0);
    TruncateKeepsOrder(half - y / 90.0, half - x / 90.0);
  }

  lemma Middle(size: nat)
    ensures XCoord(size, 0.0) == size / 2 && YCoord(size, 0.0) == size / 2
  {
    assert (size as real / 2.0).Floor == size / 2;
  }

  /** East is to the right, north is up, and the crossing of the equator and the first meridian is in the middle. */
  lemma MapKeepsOrder(size: nat, a: real, b: real)
    requires a <= b
    ensures XCoord(size, a) <= XCoord(size, b) && YCoord(size, b) <= YCoord(size, a)
    ensures XCoord(size, 0.0) == size / 2 && YCoord(size, 0.0) == size / 2
  {
    var half := size as real / 2.0;
    Middle(size);
    PlacesKeepOrder(size, half, a, b, half * a, half * b);
  }

  // ---- the map in floating point ----

  /** A rounding never reverses an order. */
  ghost predicate Rounding(r: real -> real) { forall a, b :: a <= b ==> r(a) <= r(b) }

  /** Zero, half the size and the size are representable. */
  predicate KeepsSizes(r: real -> real, half: real) {
    r(0.0) == 0.0 && r(half) == half && r(-half) == -half && r(half + half) == half + half
  }

  predicate KeepsEnds(r: real -> real, end: real) { r(end) == end && r(-end) == -end }

  /** The expression of getcartesiancoords, each operation rounded to a double and the result to a float; `half` is
      half the image, `turn` the longitude or minus the latitude, and `limit` 180 or 90. */
  function PlaceRounded(double: real -> real, float: real -> real, half: real, turn: real, limit: real): int
    requires limit > 0.0
  {
    Placed(double, float, half, double(half * turn) / limit)
  }

  function Placed(double: real -> real, float: real -> real, half: real, q: real): int {
    Truncate(float(double(half + double(q))))
  }

  lemma RoundedBetween(r: real -> real, lo: real, x: real, hi: real)
    requires Rounding(r) && r(lo) == lo && r(hi) == hi && lo <= x <= hi
    ensures lo <= r(x) <= hi
  {
  }

  /** The last two operations, on a quotient that is at most half the size. */
  lemma SumRounded(double: real -> real, float: real -> real, half: real, size: nat, q: real)
    requires Rounding(double) && Rounding(float) && half + half == size as real && -half <= q <= half
    requires KeepsSizes(double, half) && KeepsSizes(float, half)
    ensures 0 <= Placed(double, float, half, q) <= size
  {
    RoundedBetween(double, -half, q, half);
    RoundedBetween(double, 0.0, half + double(q), half + half);
    RoundedBetween(float, 0.0, double(half + double(q)), half + half);
  }

  lemma QuotientRounded(double: real -> real, half: real, limit: real, product: real, end: real)
    requires Rounding(double) && KeepsEnds(double, end)
    requires limit > 0.0 && end == half * limit && -end <= product <= end
    ensures -half <= double(product) / limit <= half
  {
    assert -end <= double(product) <= end by { RoundedBetween(double, -end, product, end); }
    QuotientBound(half, double(product), limit, end);
  }

  /** However the operations round, as long as they keep the order and the few numbers that are representable, a
      point of the globe lands on the map. */
  lemma InsideTheMapRounded(double: real -> real, float: real -> real, half: real, size: nat, turn: real, limit: real)
    requires half + half == size as real && limit > 0.0 && -limit <= turn <= limit
    requires Rounding(double) && KeepsSizes(double, half) && KeepsEnds(double, half * limit)
    requires Rounding(float) && KeepsSizes(float, half)
    ensures 0 <= PlaceRounded(double, float, half, turn, limit) <= size
  {
    var product, end := half * turn, half * limit;
    ProductBound(half, turn, limit, product, end);
    QuotientRounded(double, half, limit, product, end);
    SumRounded(double, float, half, size, double(product) / limit);
  }

  lemma ProductBound(half: real, x: real, limit: real, product: real, end: real)
    requires half >= 0.0 && -limit <= x <= limit && product == half * x && end == half * limit
    ensures -end <= product <= end
  {
    assert half * (limit - x) >= 0.0 && half * (limit + x) >= 0.0;
  }

  lemma QuotientBound(half: real, y: real, limit: real, end: real)
    requires limit > 0.0 && end == half * limit && -end <= y <= end
    ensures -half <= y / limit <= half
  {
    assert y / limit * limit == y;
  }
}
