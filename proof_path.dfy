/**
 * The storage key under which a proof screenshot is uploaded: the file
 * name is sanitised by `name.replace(/[^a-zA-Z0-9._-]/g, "_")` and the key
 * is the template `${userId}/${Date.now()}_${safeName}`.
 *
 * The regular expression has no `u` flag, so it matches one UTF-16 code
 * unit at a time; both halves of a surrogate pair are replaced.
 */
module ProofPath {
  import opened Wrappers
  import opened JsText

  // ---------------------------------------------------------------------
  // File-name sanitisation
  // ---------------------------------------------------------------------

  /** The code units the class `[a-zA-Z0-9._-]` matches. */
  predicate Allowed(u: CodeUnit) {
    || ('a' as CodeUnit <= u <= 'z' as CodeUnit)
    || ('A' as CodeUnit <= u <= 'Z' as CodeUnit)
    || IsDigit(u)
    || u == Dot
    || u == Underscore
    || u == Hyphen
  }

  predicate AllAllowed(s: Units) {
    forall i :: 0 <= i < |s| ==> Allowed(s[i])
  }

  /** What one match of the global replace does to one code unit. */
  function SanitizeUnit(u: CodeUnit): CodeUnit {
    if Allowed(u) then u else Underscore
  }

  /**
   * The sanitised file name.  It is as long as the original, every code
   * unit of it is allowed (so it holds no `/`), the allowed code units of
   * the original stay where they were and every other one became `_`.
   */
  function SafeName(name: Units): (r: Units)
    ensures |r| == |name|
    ensures AllAllowed(r)
    ensures forall i :: 0 <= i < |name| && Allowed(name[i]) ==> r[i] == name[i]
    ensures forall i :: 0 <= i < |name| && !Allowed(name[i]) ==> r[i] == Underscore
    ensures Slash !in r
  {
    if name == [] then [] else [SanitizeUnit(name[0])] + SafeName(name[1..])
  }

  /** A name is left as it is exactly when it is already made of allowed code units. */
  lemma SafeNameFixedPoint(name: Units)
    ensures SafeName(name) == name <==> AllAllowed(name)
  {
    if AllAllowed(name) {
      var r := SafeName(name);
      assert forall i :: 0 <= i < |name| ==> r[i] == name[i];
    }
  }

  /** Sanitising twice gives the same name as sanitising once. */
  lemma SafeNameIdempotent(name: Units)
    ensures SafeName(SafeName(name)) == SafeName(name)
  {
    SafeNameFixedPoint(SafeName(name));
  }

  // ---------------------------------------------------------------------
  // `${Date.now()}`: an integer number rendered in decimal
  // ---------------------------------------------------------------------

  /** The decimal digits of `n`, most significant first, without leading zeros. */
  function Digits(n: nat): (r: Units)
    ensures r != []
    ensures forall i :: 0 <= i < |r| ==> IsDigit(r[i])
    ensures r[0] == DigitUnit(0) ==> n == 0
  {
    if n < 10 then [DigitUnit(n)] else Digits(n / 10) + [DigitUnit(n % 10)]
  }

  /** The number a non-empty run of decimal digits stands for. */
  function DigitsValue(s: Units): nat
    requires forall i :: 0 <= i < |s| ==> IsDigit(s[i])
  {
    if s == [] then 0
    else
      var last := s[|s| - 1];
      assert IsDigit(last);
      DigitsValue(s[..|s| - 1]) * 10 + (last as int - '0' as int)
  }

  function ParseDigits(s: Units): Option<nat> {
    if s != [] && forall i :: 0 <= i < |s| ==> IsDigit(s[i]) then Some(DigitsValue(s)) else None
  }

  lemma {:induction false} DigitsValueOfDigits(n: nat)
    ensures DigitsValue(Digits(n)) == n
  {
    if n >= 10 {
      var r := Digits(n);
      assert r[..|r| - 1] == Digits(n / 10);
      DigitsValueOfDigits(n / 10);
    }
  }

  /**
   * How a JavaScript integer number below 10^21 in magnitude is turned
   * into a string: a `-` for negative values, then its decimal digits.
   * The text holds neither `/` nor `_`, which is what lets the storage key
   * be split again.
   */
  function Decimal(t: int): (r: Units)
    ensures r != []
    ensures forall i :: 0 <= i < |r| ==> IsDigit(r[i]) || (i == 0 && r[i] == Hyphen)
    ensures Slash !in r && Underscore !in r
  {
    if t < 0 then [Hyphen] + Digits(-t) else Digits(t)
  }

  function ParseDecimal(s: Units): Option<int> {
    if s != [] && s[0] == Hyphen then
      match ParseDigits(s[1..])
      case Some(n) => Some(-(n as int))
      case None => None
    else
      match ParseDigits(s)
      case Some(n) => Some(n)
      case None => None
  }

  lemma ParseDigitsOfDigits(n: nat)
    ensures ParseDigits(Digits(n)) == Some(n)
  {
    DigitsValueOfDigits(n);
  }

  /** The timestamp can be read back from its decimal text. */
  lemma DecimalRoundTrip(t: int)
    ensures ParseDecimal(Decimal(t)) == Some(t)
  {
    if t < 0 {
      var d := Digits(-t);
      assert Decimal(t) == [Hyphen] + d;
      assert Decimal(t)[1..] == d;
      ParseDigitsOfDigits(-t);
    } else {
      var d := Digits(t);
      assert IsDigit(d[0]);
      ParseDigitsOfDigits(t);
    }
  }

  // ---------------------------------------------------------------------
  // The storage key and its inverse
  // ---------------------------------------------------------------------

  /**
   * `${userId}/${now}_${safeName}`.  The key starts with the user's folder
   * `userId/`, and the segment after that folder starts with a digit or a
   * `-`, so it is never `.` or `..`.
   */
  function StoragePath(userId: Units, now: int, safeName: Units): (p: Units)
    ensures |p| > |userId| + 1
    ensures p[..|userId| + 1] == userId + [Slash]
    ensures IsDigit(p[|userId| + 1]) || p[|userId| + 1] == Hyphen
  {
    userId + [Slash] + Decimal(now) + [Underscore] + safeName
  }

  datatype PathParts = PathParts(folder: Units, stamp: int, name: Units)

  /** The position of the last `c` in `s`, if there is one. */
  function LastIndexOf(s: Units, c: CodeUnit): (r: Option<nat>)
    ensures r.None? ==> c !in s
    ensures r.Some? ==> r.value < |s| && s[r.value] == c && c !in s[r.value + 1..]
  {
    if s == [] then None
    else if s[|s| - 1] == c then Some(|s| - 1)
    else LastIndexOf(s[..|s| - 1], c)
  }

  /** The position of the first `c` in `s`, if there is one. */
  function IndexOf(s: Units, c: CodeUnit): (r: Option<nat>)
    ensures r.None? ==> c !in s
    ensures r.Some? ==> r.value < |s| && s[r.value] == c && c !in s[..r.value]
  {
    if s == [] then None
    else if s[0] == c then Some(0)
    else match IndexOf(s[1..], c)
      case Some(k) => Some(k + 1)
      case None => None
  }

  /** Reads `<timestamp>_<name>` back, splitting at the first `_`. */
  function SplitStamp(base: Units): Option<(int, Units)> {
    match IndexOf(base, Underscore)
    case None => None
    case Some(j) =>
      match ParseDecimal(base[..j])
      case None => None
      case Some(t) => Some((t, base[j + 1..]))
  }

  /**
   * Reads a storage key back into the folder (everything before the last
   * `/`), the timestamp and the file name.
   */
  function SplitPath(p: Units): Option<PathParts> {
    match LastIndexOf(p, Slash)
    case None => None
    case Some(k) =>
      match SplitStamp(p[k + 1..])
      case None => None
      case Some((t, name)) => Some(PathParts(p[..k], t, name))
  }

  /** The last `/` of `folder/base` is the one after the folder when `base` has none. */
  lemma LastSlashEndsFolder(folder: Units, base: Units)
    requires Slash !in base
    ensures LastIndexOf(folder + [Slash] + base, Slash) == Some(|folder|)
  {
    var p := folder + [Slash] + base;
    assert p[|folder|] == Slash;
    assert p[|folder| + 1..] == base;
  }

  /** The first `_` of `stamp_name` is the one after the stamp when the stamp has none. */
  lemma FirstUnderscoreEndsStamp(stamp: Units, name: Units)
    requires Underscore !in stamp
    ensures IndexOf(stamp + [Underscore] + name, Underscore) == Some(|stamp|)
  {
    var b := stamp + [Underscore] + name;
    assert b[|stamp|] == Underscore;
    assert b[..|stamp|] == stamp;
  }

  /** The last segment of a key reads back as the timestamp and the name. */
  lemma SplitStampRoundTrip(now: int, name: Units)
    ensures SplitStamp(Decimal(now) + [Underscore] + name) == Some((now, name))
  {
    var d := Decimal(now);
    var base := d + [Underscore] + name;
    FirstUnderscoreEndsStamp(d, name);
    assert base[..|d|] == d;
    assert base[|d| + 1..] == name;
    DecimalRoundTrip(now);
  }

  /**
   * Any key built from a name without `/` splits back into the user id,
   * the timestamp and that name: the folder is exactly the user's, however
   * the user id itself is spelled.
   */
  lemma SplitPathRoundTrip(userId: Units, now: int, name: Units)
    requires Slash !in name
    ensures SplitPath(StoragePath(userId, now, name)) == Some(PathParts(userId, now, name))
  {
    var base := Decimal(now) + [Underscore] + name;
    var p := StoragePath(userId, now, name);
    assert p == userId + [Slash] + base;
    LastSlashEndsFolder(userId, base);
    assert p[..|userId|] == userId;
    assert p[|userId| + 1..] == base;
    SplitStampRoundTrip(now, name);
  }

  /** The key of an uploaded proof always lies in the uploading user's folder. */
  lemma ProofPathInUserFolder(userId: Units, now: int, fileName: Units)
    ensures SplitPath(StoragePath(userId, now, SafeName(fileName)))
         == Some(PathParts(userId, now, SafeName(fileName)))
  {
    SplitPathRoundTrip(userId, now, SafeName(fileName));
  }
}
