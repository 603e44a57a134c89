/** File names stamped with the local time: `strftime('%Y%m%d_%H%M%S')`,
    `os.path.splitext` (POSIX flavour) and the `base_timestamp.ext` name
    that `save_to_json` writes. */
module Naming {
  import opened Wrappers

  /** The fields of a `datetime` that `%Y%m%d_%H%M%S` prints. */
  datatype DateTime = DateTime(year: int, month: int, day: int, hour: int, minute: int, second: int)

  predicate IsLeapYear(y: int) {
    y % 4 == 0 && (y % 100 != 0 || y % 400 == 0)
  }

  function DaysInMonth(y: int, m: int): int
    requires 1 <= m <= 12
  {
    if m == 2 then (if IsLeapYear(y) then 29 else 28)
    else if m == 4 || m == 6 || m == 9 || m == 11 then 30
    else 31
  }

  /** A `datetime` whose `%Y` has four digits. */
  predicate ValidDateTime(dt: DateTime) {
    1000 <= dt.year <= 9999 && 1 <= dt.month <= 12 && 1 <= dt.day <= DaysInMonth(dt.year, dt.month)
    && 0 <= dt.hour < 24 && 0 <= dt.minute < 60 && 0 <= dt.second < 60
  }

  predicate IsDigit(c: char) {
    '0' <= c <= '9'
  }

  predicate AllDigits(s: string) {
    forall k :: 0 <= k < |s| ==> IsDigit(s[k])
  }

  function Pow10(w: nat): (p: nat)
    ensures p >= 1
  {
    if w == 0 then 1 else 10 * Pow10(w - 1)
  }

  /** `n` printed in decimal, zero-padded to exactly `w` digits. */
  function Pad(n: nat, w: nat): (r: string)
    requires n < Pow10(w)
    ensures |r| == w && AllDigits(r)
  {
    if w == 0 then [] else Pad(n / 10, w - 1) + [('0' as int + n % 10) as char]
  }

  /** The number a string of decimal digits denotes. */
  function DecimalValue(s: string): (n: nat)
    requires AllDigits(s)
    ensures n < Pow10(|s|)
  {
    if s == [] then 0 else DecimalValue(s[..|s| - 1]) * 10 + (s[|s| - 1] as int - '0' as int)
  }

  lemma {:induction false} PadValue(n: nat, w: nat)
    requires n < Pow10(w)
    ensures DecimalValue(Pad(n, w)) == n
  {
    if w > 0 {
      var p := Pad(n, w);
      assert p[..w - 1] == Pad(n / 10, w - 1);
      PadValue(n / 10, w - 1);
    }
  }

  lemma {:induction false} ValuePad(s: string)
    requires AllDigits(s)
    ensures Pad(DecimalValue(s), |s|) == s
  {
    if s != [] {
      var init := s[..|s| - 1];
      var v := DecimalValue(init);
      var d := s[|s| - 1] as int - '0' as int;
      assert 0 <= d < 10;
      var n := DecimalValue(s);
      assert n == v * 10 + d;
      assert n / 10 == v && n % 10 == d;
      ValuePad(init);
      assert ('0' as int + d) as char == s[|s| - 1];
      assert Pad(n, |s|) == Pad(v, |s| - 1) + [s[|s| - 1]];
      assert s == init + [s[|s| - 1]];
    }
  }

  /** `dt.strftime('%Y%m%d_%H%M%S')`. */
  function FormatTimestamp(dt: DateTime): (r: string)
    requires ValidDateTime(dt)
    ensures |r| == 15 && r[8] == '_'
    ensures forall k :: 0 <= k < 15 && k != 8 ==> IsDigit(r[k])
  {
    Pad(dt.year, 4) + Pad(dt.month, 2) + Pad(dt.day, 2) + "_" + Pad(dt.hour, 2) + Pad(dt.minute, 2) + Pad(dt.second, 2)
  }

  /** The inverse of `FormatTimestamp`: reads a timestamp back, or `None`
      when the text is not one that `FormatTimestamp` can print. */
  function ParseTimestamp(s: string): Option<DateTime> {
    if |s| == 15 && s[8] == '_' && AllDigits(s[..8]) && AllDigits(s[9..]) then
      var dt := DateTime(DecimalValue(s[0..4]), DecimalValue(s[4..6]), DecimalValue(s[6..8]),
                         DecimalValue(s[9..11]), DecimalValue(s[11..13]), DecimalValue(s[13..15]));
      if ValidDateTime(dt) then Some(dt) else None
    else None
  }

  /** Formatting then parsing gives back the date and time. */
  lemma TimestampRoundTrip(dt: DateTime)
    requires ValidDateTime(dt)
    ensures ParseTimestamp(FormatTimestamp(dt)) == Some(dt)
  {
    var s := FormatTimestamp(dt);
    assert s[0..4] == Pad(dt.year, 4);
    assert s[4..6] == Pad(dt.month, 2);
    assert s[6..8] == Pad(dt.day, 2);
    assert s[9..11] == Pad(dt.hour, 2);
    assert s[11..13] == Pad(dt.minute, 2);
    assert s[13..15] == Pad(dt.second, 2);
    PadValue(dt.year, 4);
    PadValue(dt.month, 2);
    PadValue(dt.day, 2);
    PadValue(dt.hour, 2);
    PadValue(dt.minute, 2);
    PadValue(dt.second, 2);
  }

  /** Parsing then formatting gives back the text: a timestamp names
      exactly one date and time. */
  lemma ParseTimestampExact(s: string)
    requires ParseTimestamp(s).Some?
    ensures FormatTimestamp(ParseTimestamp(s).value) == s
  {
    TimestampFields(s);
    ValuePad(s[0..4]);
    ValuePad(s[4..6]);
    ValuePad(s[6..8]);
    ValuePad(s[9..11]);
    ValuePad(s[11..13]);
    ValuePad(s[13..15]);
  }

  /** A text of the timestamp's shape is its six digit fields around the `_`. */
  lemma TimestampFields(s: string)
    requires |s| == 15 && s[8] == '_' && AllDigits(s[..8]) && AllDigits(s[9..])
    ensures AllDigits(s[0..4]) && AllDigits(s[4..6]) && AllDigits(s[6..8])
    ensures AllDigits(s[9..11]) && AllDigits(s[11..13]) && AllDigits(s[13..15])
    ensures s == s[0..4] + s[4..6] + s[6..8] + "_" + s[9..11] + s[11..13] + s[13..15]
  {
    assert s[0..4] == s[..8][0..4] && s[4..6] == s[..8][4..6] && s[6..8] == s[..8][6..8];
    assert s[9..11] == s[9..][0..2] && s[11..13] == s[9..][2..4] && s[13..15] == s[9..][4..6];
  }

  /** `s.rfind(c)`: the index of the last `c` in `s`, or -1. */
  function RFind(s: string, c: char): (r: int)
    ensures -1 <= r < |s|
    ensures r >= 0 ==> s[r] == c
    ensures forall k :: r < k < |s| ==> s[k] != c
  {
    if s == [] then -1
    else if s[|s| - 1] == c then |s| - 1
    else RFind(s[..|s| - 1], c)
  }

  /** The last `c` of `s + t` is in `t` if `t` has one, else it is the last
      `c` of `s`. */
  lemma {:induction false} RFindConcat(s: string, t: string, c: char)
    ensures RFind(s + t, c) == if RFind(t, c) >= 0 then |s| + RFind(t, c) else RFind(s, c)
  {
    if t == [] {
      assert s + t == s;
    } else if t[|t| - 1] != c {
      assert (s + t)[..|s + t| - 1] == s + t[..|t| - 1];
      RFindConcat(s, t[..|t| - 1], c);
    }
  }

  /** Every character of `s` from `lo` up to `hi` is a `.`. */
  predicate DotsBetween(s: string, lo: int, hi: int)
    requires 0 <= lo && hi <= |s|
  {
    forall k :: lo <= k < hi ==> s[k] == '.'
  }

  /** The final path component (after the last `/`) has a `.` somewhere
      after a character that is not a `.`. */
  predicate HasExtension(p: string) {
    exists i, j :: RFind(p, '/') < i < j < |p| && p[i] != '.' && p[j] == '.'
  }

  /** `posixpath.splitext(p)`: split at the last `.` of the final path
      component, unless everything before that dot in the component is dots
      (a leading dot, as in `.bashrc`, does not start an extension). */
  function SplitExt(p: string): (r: (string, string))
    ensures r.0 + r.1 == p
    ensures r.1 != [] <==> HasExtension(p)
    ensures r.1 != [] ==> |r.0| == RFind(p, '.')
    ensures r.1 == [] || r.1[0] == '.'
    ensures forall k :: 0 < k < |r.1| ==> r.1[k] != '.' && r.1[k] != '/'
  {
    var sep := RFind(p, '/');
    var dot := RFind(p, '.');
    ExtensionWhere(p);
    if sep < dot && !DotsBetween(p, sep + 1, dot) then
      ExtensionChars(p);
      (p[..dot], p[dot..])
    else
      assert p + "" == p;
      (p, "")
  }

  /** `HasExtension` is the test `splitext` makes: the last dot follows the
      last slash and is preceded, within the component, by a non-dot. */
  lemma ExtensionWhere(p: string)
    ensures var sep := RFind(p, '/');
      var dot := RFind(p, '.');
      HasExtension(p) <==> sep < dot && !DotsBetween(p, sep + 1, dot)
  {
    var sep := RFind(p, '/');
    var dot := RFind(p, '.');
    if sep < dot && !DotsBetween(p, sep + 1, dot) {
      var i :| sep + 1 <= i < dot && p[i] != '.';
      assert p[dot] == '.';
    }
  }

  /** `splitext` of the default output name `nbn_providers.json`. */
  lemma DefaultNameSplit()
    ensures SplitExt("nbn_providers.json") == ("nbn_providers", ".json")
  {
    var b, x := "nbn_providers", "json";
    var p := b + "." + x;
    assert p == "nbn_providers.json";
    assert '/' !in p && '.' !in x;
    assert forall k :: 0 <= k < |x| ==> p[|b| + 1 + k] == x[k];
    assert RFind(p, '/') == -1;
    assert p[0] != '.' && p[|b|] == '.';
    assert forall k :: |b| < k < |p| ==> p[k] != '.';
    assert RFind(p, '.') == |b|;
    assert p[..|b|] == b && p[|b|..] == "." + x;
  }

  /** A leading dot does not start an extension: `splitext(".bashrc")` keeps
      the whole name as the root. */
  lemma DotFileSplit()
    ensures SplitExt(".bashrc") == (".bashrc", "")
  {
    var x := "bashrc";
    var p := "." + x;
    assert p == ".bashrc";
    assert '/' !in p && '.' !in x;
    assert forall k :: 0 < k < |p| ==> p[k] == x[k - 1];
    assert RFind(p, '/') == -1;
    assert !HasExtension(p);
  }

  /** Past the last dot that follows the last slash there is neither a dot
      nor a slash. */
  lemma ExtensionChars(p: string)
    requires RFind(p, '/') < RFind(p, '.')
    ensures var e := p[RFind(p, '.')..];
      p[..RFind(p, '.')] + e == p && forall k :: 0 < k < |e| ==> e[k] != '.' && e[k] != '/'
  {
    var dot := RFind(p, '.');
    var e := p[dot..];
    assert forall k :: 0 < k < |e| ==> e[k] == p[dot + k];
  }

  /** A piece with no `.` and no `/`, at least one character long, slipped
      between the root and the extension does not move the split. */
  lemma SplitExtInsert(p: string, m: string)
    requires m != [] && forall k :: 0 <= k < |m| ==> m[k] != '.' && m[k] != '/'
    ensures SplitExt(SplitExt(p).0 + m + SplitExt(p).1) == (SplitExt(p).0 + m, SplitExt(p).1)
  {
    if SplitExt(p).1 == [] {
      InsertWithoutExtension(p, m);
    } else {
      InsertBeforeExtension(p, m);
    }
  }

  /** The case of `SplitExtInsert` where `p` has no extension. */
  lemma InsertWithoutExtension(p: string, m: string)
    requires m != [] && forall k :: 0 <= k < |m| ==> m[k] != '.' && m[k] != '/'
    requires SplitExt(p).1 == []
    ensures SplitExt(p + m) == (p + m, [])
  {
    var sep := RFind(p, '/');
    var dot := RFind(p, '.');
    assert RFind(m, '.') == -1 && RFind(m, '/') == -1;
    RFindConcat(p, m, '.');
    RFindConcat(p, m, '/');
    assert forall k :: 0 <= k < |p| ==> (p + m)[k] == p[k];
  }

  /** The case of `SplitExtInsert` where `p` has an extension. */
  lemma InsertBeforeExtension(p: string, m: string)
    requires m != [] && forall k :: 0 <= k < |m| ==> m[k] != '.' && m[k] != '/'
    requires SplitExt(p).1 != []
    ensures SplitExt(SplitExt(p).0 + m + SplitExt(p).1) == (SplitExt(p).0 + m, SplitExt(p).1)
  {
    var (b, e) := SplitExt(p);
    var q := b + m + e;
    var sep := RFind(p, '/');
    InsertedSeparators(b, m, e);
    assert RFind(p, '/') == RFind(b, '/') by {
      assert RFind(e, '/') == -1;
      RFindConcat(b, e, '/');
    }
    assert q[sep + 1..|b + m|][|b| - (sep + 1)] == m[0];
    assert q[..|b + m|] == b + m && q[|b + m|..] == e;
  }

  /** Where the last `.` and the last `/` of `b + m + e` are, when `e` is
      an extension and `m` holds neither. */
  lemma InsertedSeparators(b: string, m: string, e: string)
    requires forall k :: 0 <= k < |m| ==> m[k] != '.' && m[k] != '/'
    requires e != [] && e[0] == '.' && forall k :: 0 < k < |e| ==> e[k] != '.' && e[k] != '/'
    ensures RFind(b + m + e, '.') == |b + m|
    ensures RFind(b + m + e, '/') == RFind(b, '/')
  {
    assert RFind(m, '/') == -1;
    assert RFind(e, '.') == 0;
    assert RFind(e, '/') == -1;
    RFindConcat(b + m, e, '.');
    RFindConcat(b + m, e, '/');
    RFindConcat(b, m, '/');
  }

  /** The name `save_to_json` writes for `filename` at time `dt`:
      `base + "_" + timestamp + ext` where `(base, ext) = splitext(filename)`. */
  function StampedName(filename: string, dt: DateTime): (r: string)
    requires ValidDateTime(dt)
    ensures |r| == |filename| + 16
  {
    var (base, ext) := SplitExt(filename);
    base + "_" + FormatTimestamp(dt) + ext
  }

  /** Recovers the original file name and the time from a stamped name. */
  function Unstamp(name: string): Option<(string, DateTime)> {
    var (stem, ext) := SplitExt(name);
    if |stem| >= 16 && stem[|stem| - 16] == '_' then
      match ParseTimestamp(stem[|stem| - 15..])
      case Some(dt) => Some((stem[..|stem| - 16] + ext, dt))
      case None => None
    else None
  }

  /** The inserted `"_" + timestamp` holds no `.` and no `/`, so it cannot
      move the extension split. */
  lemma NoSeparatorsInStamp(dt: DateTime)
    requires ValidDateTime(dt)
    ensures var m := "_" + FormatTimestamp(dt);
      forall k :: 0 <= k < |m| ==> m[k] != '.' && m[k] != '/'
  {
    var ts := FormatTimestamp(dt);
    var m := "_" + ts;
    forall k | 0 <= k < |m| ensures m[k] != '.' && m[k] != '/' {
      if k > 0 { assert m[k] == ts[k - 1]; }
    }
  }

  /** Stamping is invertible: the original name and time can be read back,
      so two different names or two different seconds never collide. */
  lemma StampRoundTrip(filename: string, dt: DateTime)
    requires ValidDateTime(dt)
    ensures Unstamp(StampedName(filename, dt)) == Some((filename, dt))
  {
    var (base, ext) := SplitExt(filename);
    var m := "_" + FormatTimestamp(dt);
    NoSeparatorsInStamp(dt);
    SplitExtInsert(filename, m);
    assert StampedName(filename, dt) == base + m + ext;
    UnstampSplit(base, m, ext, dt);
  }

  /** `Unstamp` on a name whose split puts the stamp `m` at the end of the
      root. */
  lemma UnstampSplit(base: string, m: string, ext: string, dt: DateTime)
    requires ValidDateTime(dt) && m == "_" + FormatTimestamp(dt)
    requires SplitExt(base + m + ext) == (base + m, ext)
    ensures Unstamp(base + m + ext) == Some((base + ext, dt))
  {
    var stem := base + m;
    assert stem[|stem| - 16] == '_';
    assert stem[|stem| - 15..] == FormatTimestamp(dt) && stem[..|stem| - 16] == base;
    TimestampRoundTrip(dt);
  }
}
