/** The pure helpers of pandora/helpers.py: value coercions, the
    duration parser behind expire_in_sec, and the `can_` action map
    that roles_from_config builds for each configured role. */
module Helpers {
  import opened Wrappers

  /** A Python value as these helpers receive it. */
  datatype PyValue = PyNone | PyBool(b: bool) | PyInt(i: int) | PyStr(s: string)
  {
    /** bool is a subclass of int. */
    predicate IsNumber() { PyBool? || PyInt? }

    function AsInt(): int
      requires IsNumber()
    {
      if PyBool? then (if b then 1 else 0) else i
    }
  }

  /** Python's `==`: True == 1 and False == 0; a str never equals a number. */
  function PyEq(a: PyValue, b: PyValue): (r: bool)
    ensures a == b ==> r
    ensures r && a != b ==> a.IsNumber() && b.IsNumber() && a.AsInt() == b.AsInt()
    ensures a.PyBool? && b.PyInt? ==> (r <==> b.i == if a.b then 1 else 0)
  {
    if a.IsNumber() && b.IsNumber() then a.AsInt() == b.AsInt()
    else if a.PyStr? && b.PyStr? then a.s == b.s
    else a.PyNone? && b.PyNone?
  }

  // ---------------------------------------------------------------- make_bool

  /** make_bool: `value in [True, 1, '1']`, where `in` compares with `==`. */
  function MakeBool(value: PyValue): (r: bool)
    ensures r <==> value == PyBool(true) || value == PyInt(1) || value == PyStr("1")
  {
    PyEq(value, PyBool(true)) || PyEq(value, PyInt(1)) || PyEq(value, PyStr("1"))
  }

  /** make_bool_for_redis: 1 when the value is the True object itself
      (`is`, not `==`, so the int 1 gives 0), else 0. */
  function MakeBoolForRedis(value: PyValue): (r: int)
    ensures r == 0 || r == 1
    ensures r == 1 <==> value == PyBool(true)
  {
    if value.PyBool? && value.b then 1 else 0
  }

  // ------------------------------------------------------------ str() of an int

  function DigitChar(d: nat): (c: char)
    requires d < 10
    ensures '0' <= c <= '9'
  {
    "0123456789"[d]
  }

  predicate IsDigit(c: char) { '0' <= c <= '9' }

  predicate AllDigits(s: string)
  {
    forall i :: 0 <= i < |s| ==> IsDigit(s[i])
  }

  /** int() of a string of ASCII digits (leading zeros allowed). */
  function DigitsValue(s: string): (n: nat)
    requires AllDigits(s)
  {
    if s == [] then 0
    else DigitsValue(s[..|s| - 1]) * 10 + (s[|s| - 1] - '0') as nat
  }

  /** str(n) for n >= 0: decimal, no leading zero. */
  function NatToDecimal(n: nat): (s: string)
    ensures s != [] && AllDigits(s)
  {
    if n < 10 then [DigitChar(n)]
    else NatToDecimal(n / 10) + [DigitChar(n % 10)]
  }

  /** str() of a value. */
  function PyStrOf(v: PyValue): (r: string)
    ensures v.PyNone? ==> r == "None"
    ensures v.PyStr? ==> r == v.s
    ensures v.PyInt? && v.i >= 0 ==> r != [] && AllDigits(r) && DigitsValue(r) == v.i
    ensures v.PyInt? && v.i < 0 ==> r != [] && r[0] == '-'
  {
    match v
    case PyNone => "None"
    case PyBool(b) => if b then "True" else "False"
    case PyInt(i) =>
      if i < 0 then "-" + NatToDecimal(-i)
      else
        DecimalRoundTrip(i);
        NatToDecimal(i)
    case PyStr(s) => s
  }

  lemma {:induction false} DecimalRoundTrip(n: nat)
    ensures DigitsValue(NatToDecimal(n)) == n
  {
    var s := NatToDecimal(n);
    if n >= 10 {
      DecimalRoundTrip(n / 10);
      assert s[..|s| - 1] == NatToDecimal(n / 10);
    }
  }

  /** What Redis hands back (decode_responses=True) for the int that
      make_bool_for_redis produced is its decimal text; make_bool of
      that text recovers the original bool. */
  lemma RedisBoolRoundTrip(b: bool)
    ensures MakeBool(PyStr(PyStrOf(PyInt(MakeBoolForRedis(PyBool(b)))))) == b
  {
    assert NatToDecimal(0) == "0" && NatToDecimal(1) == "1";
  }

  // ------------------------------------------------------------- expire_in_sec

  /** The optional second group of `(\d+)([smhd]?)`. */
  datatype Unit = NoSuffix | Second | Minute | Hour | Day

  function SuffixUnit(c: char): Option<Unit>
  {
    if c == 's' then Some(Second)
    else if c == 'm' then Some(Minute)
    else if c == 'h' then Some(Hour)
    else if c == 'd' then Some(Day)
    else None
  }

  /** Seconds in one unit, as timedelta counts them. */
  function UnitSeconds(u: Unit): nat
  {
    match u
    case NoSuffix => 1
    case Second => 1
    case Minute => 60
    case Hour => 3600
    case Day => 86400
  }

  /** The largest number of days a timedelta holds (timedelta.max.days);
      beyond it the constructor raises OverflowError. */
  const TimedeltaMaxDays: nat := 999999999

  /** A successful full match: the digits' value and the unit. */
  datatype Duration = Duration(count: nat, unit: Unit)

  /** `s` is a split of digits and an optional unit letter at position k. */
  ghost predicate SplitsAt(s: string, k: int)
  {
    && 1 <= k <= |s|
    && AllDigits(s[..k])
    && (k == |s| || (k == |s| - 1 && SuffixUnit(s[k]).Some?))
  }

  /** re.fullmatch(r'(\d+)([smhd]?)', s), with `\d` read as the ASCII digits. */
  function FullMatchDuration(s: string): (r: Option<Duration>)
    ensures r.Some? <==> exists k :: SplitsAt(s, k)
    ensures forall k | SplitsAt(s, k) ::
      r == Some(Duration(DigitsValue(s[..k]), if k == |s| then NoSuffix else SuffixUnit(s[k]).value))
  {
    if s == [] then None
    else
      var last := s[|s| - 1];
      if SuffixUnit(last).Some? then
        if |s| >= 2 && AllDigits(s[..|s| - 1]) then
          assert SplitsAt(s, |s| - 1);
          Some(Duration(DigitsValue(s[..|s| - 1]), SuffixUnit(last).value))
        else
          assert forall k :: !SplitsAt(s, k) by {
            forall k | 1 <= k <= |s| ensures !SplitsAt(s, k) {
              if k == |s| { assert s[..k][k - 1] == last; }
            }
          }
          None
      else if AllDigits(s) then
        assert SplitsAt(s, |s|) && s[..|s|] == s;
        assert forall k | SplitsAt(s, k) :: k == |s|;
        Some(Duration(DigitsValue(s), NoSuffix))
      else
        assert forall k :: !SplitsAt(s, k) by {
          forall k | 1 <= k <= |s| ensures !SplitsAt(s, k) {
            if k == |s| { assert s[..k] == s; }
          }
        }
        None
  }

  /** Why expire_in_sec raises. */
  datatype ExpireError =
    | Unparseable   // the assertion on the full match fails
    | Overflow      // timedelta(...) raises OverflowError

  /** expire_in_sec: None stays None; otherwise str(time) must fully match
      `(\d+)([smhd]?)` and the count is converted to seconds through a
      timedelta. */
  function ExpireInSec(time: PyValue): (r: Result<Option<int>, ExpireError>)
    ensures r == Success(None) <==> time == PyNone
    ensures r.Success? && r.value.Some? ==> 0 <= r.value.value < (TimedeltaMaxDays + 1) * 86400
    ensures r == Failure(Unparseable) <==> time != PyNone && FullMatchDuration(PyStrOf(time)).None?
  {
    if time == PyNone then Success(None)
    else
      match FullMatchDuration(PyStrOf(time))
      case None => Failure(Unparseable)
      case Some(d) =>
        var seconds := d.count * UnitSeconds(d.unit);
        if seconds / 86400 <= TimedeltaMaxDays then Success(Some(seconds)) else Failure(Overflow)
  }

  /** A count of digits followed by a unit letter, or by nothing. */
  lemma ExpireOfDigits(digits: string, suffix: string)
    requires digits != [] && AllDigits(digits)
    requires suffix in ["", "s", "m", "h", "d"]
    ensures var u := if suffix == "" then NoSuffix else SuffixUnit(suffix[0]).value;
            var seconds := DigitsValue(digits) * UnitSeconds(u);
            ExpireInSec(PyStr(digits + suffix))
              == if seconds / 86400 <= TimedeltaMaxDays then Success(Some(seconds)) else Failure(Overflow)
  {
    var s := digits + suffix;
    assert s[..|digits|] == digits;
    assert SplitsAt(s, |digits|);
  }

  /** An int is printed first: a non-negative one gives itself in
      seconds, a negative one is rejected by the match. */
  lemma ExpireOfInt(n: int)
    ensures n < 0 ==> ExpireInSec(PyInt(n)) == Failure(Unparseable)
    ensures n >= 0 ==>
              ExpireInSec(PyInt(n)) == if n / 86400 <= TimedeltaMaxDays then Success(Some(n)) else Failure(Overflow)
  {
    if n < 0 {
      var s := PyStrOf(PyInt(n));
      assert !IsDigit(s[0]);
      forall k | 1 <= k <= |s| ensures !SplitsAt(s, k) {
        assert s[..k][0] == s[0];
      }
    } else {
      var s := NatToDecimal(n);
      DecimalRoundTrip(n);
      assert PyStrOf(PyInt(n)) == s == s + "";
      ExpireOfDigits(s, "");
      assert ExpireInSec(PyInt(n)) == ExpireInSec(PyStr(s));
    }
  }

  /** A string that carries anything besides digits and one trailing
      unit letter is rejected, e.g. "5x". */
  lemma ExpireRejectsUnknownSuffix(digits: string, c: char)
    requires AllDigits(digits)
    requires !IsDigit(c) && SuffixUnit(c).None?
    ensures ExpireInSec(PyStr(digits + [c])) == Failure(Unparseable)
  {
    var s := digits + [c];
    forall k | 1 <= k <= |s| ensures !SplitsAt(s, k) {
      if k == |s| {
        assert s[..k][k - 1] == c;
      }
    }
  }

  // ---------------------------------------------------------- role action map

  const ActionPrefix: string := "can_"

  predicate HasActionPrefix(key: string)
  {
    |key| >= 4 && key[..4] == ActionPrefix
  }

  /** `{key[4:]: value for key, value in r.items() if key.startswith('can_')}`:
      the `can_` entries of a configured role, with the prefix cut off. */
  function RoleActions<V>(entry: map<string, V>): (actions: map<string, V>)
    ensures forall a :: a in actions <==> ActionPrefix + a in entry
    ensures forall a | a in actions :: actions[a] == entry[ActionPrefix + a]
  {
    assert forall k1, k2 | HasActionPrefix(k1) && HasActionPrefix(k2) && k1[4..] == k2[4..] :: k1 == k2 by {
      forall k1, k2 | HasActionPrefix(k1) && HasActionPrefix(k2) && k1[4..] == k2[4..] ensures k1 == k2 {
        assert k1 == k1[..4] + k1[4..] && k2 == k2[..4] + k2[4..];
      }
    }
    var actions := map key | key in entry && HasActionPrefix(key) :: key[4..] := entry[key];
    assert forall a :: ActionPrefix + a in entry ==> (ActionPrefix + a)[4..] == a;
    assert forall key | key in entry && HasActionPrefix(key) :: key == ActionPrefix + key[4..];
    actions
  }

  /** No two configured keys collapse onto one action: the map has as
      many entries as the role has `can_` keys. */
  lemma RoleActionsCount<V>(entry: map<string, V>)
    ensures |RoleActions(entry)| == |set key | key in entry && HasActionPrefix(key)|
  {
    var keys := set key | key in entry && HasActionPrefix(key);
    var actions := RoleActions(entry);
    assert actions.Keys == set key | key in keys && HasActionPrefix(key) :: key[4..];
    StripPrefixInjective(keys);
  }

  lemma {:induction false} StripPrefixInjective(keys: set<string>)
    requires forall key | key in keys :: HasActionPrefix(key)
    ensures |set key | key in keys && HasActionPrefix(key) :: key[4..]| == |keys|
  {
    if keys != {} {
      var k :| k in keys;
      var rest := keys - {k};
      StripPrefixInjective(rest);
      var image := set key | key in keys && HasActionPrefix(key) :: key[4..];
      var restImage := set key | key in rest && HasActionPrefix(key) :: key[4..];
      assert k[4..] !in restImage by {
        forall key | key in rest ensures key[4..] != k[4..] {
          assert key == ActionPrefix + key[4..] && k == ActionPrefix + k[4..];
        }
      }
      assert image == restImage + {k[4..]};
    }
  }
}
