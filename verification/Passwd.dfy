/** The text format of the user database: printing an entry and parsing it again. */
module Passwd {
  import opened Common

  const NAME_MAX: nat := 32
  const PASS_MAX: nat := 160
  const GECOS_MAX: nat := 64
  const HOME_MAX: nat := 128
  const SHELL_MAX: nat := 128
  const MAX_LINES: nat := 256
  const MAX_ID: nat := 2_000_000_000

  datatype Entry = Entry(name: string, pass: string, uid: nat, gid: nat, gecos: string, home: string, shell: string)

  // Numbers

  function Digit(d: nat): char
    requires d < 10
  {
    ('0' as int + d) as char
  }

  predicate IsDigit(c: char) { '0' <= c <= '9' }

  function DigitValue(c: char): (d: nat)
    requires IsDigit(c)
    ensures d < 10
  {
    c as int - '0' as int
  }

  /** The decimal digits of `v`, without leading zeros. */
  ghost function Digits(v: nat): string
  {
    if v < 10 then [Digit(v)] else Digits(v / 10) + [Digit(v % 10)]
  }

  ghost predicate Numeric(s: string) { forall i :: 0 <= i < |s| ==> IsDigit(s[i]) }

  ghost function Value(s: string): nat
    requires Numeric(s)
  {
    if s == [] then 0 else Value(s[..|s| - 1]) * 10 + DigitValue(s[|s| - 1])
  }

  lemma {:induction false} DigitsValue(v: nat)
    ensures Numeric(Digits(v)) && Value(Digits(v)) == v && Digits(v) != []
  {
    var s := Digits(v);
    if v < 10 {
      assert s[..|s| - 1] == [] && DigitValue(Digit(v)) == v;
    } else {
      DigitsValue(v / 10);
      assert s[..|s| - 1] == Digits(v / 10) && DigitValue(Digit(v % 10)) == v % 10;
    }
  }

  lemma {:induction false} ValueGrows(s: string, i: nat)
    requires Numeric(s) && i <= |s|
    ensures Numeric(s[..i]) && Value(s[..i]) <= Value(s)
    decreases |s| - i
  {
    if i < |s| {
      ValueGrows(s, i + 1);
      assert s[..i + 1][..i] == s[..i];
    } else {
      assert s[..i] == s;
    }
  }

  /** `fmt_dec`: the digits from the last to the first, then turned around. */
  method FormatDec(v: nat) returns (s: string)
    requires v < U32
    ensures s == Digits(v)
  {
    if v == 0 {
      return "0";
    }
    s := [];
    var w := v;
    while w > 0
      invariant Digits(v) == if w == 0 then s else Digits(w) + s
    {
      s := [Digit(w % 10)] + s;
      w := w / 10;
    }
  }

  /** Reading digits in 32-bit arithmetic after the number `v`. */
  function Scan(s: string, v: nat): Option<nat>
  {
    if s == [] then Some(v)
    else if !IsDigit(s[0]) then None
    else
      var w := (v * 10 + DigitValue(s[0])) % U32;
      if w > MAX_ID then None else Scan(s[1..], w)
  }

  lemma {:induction false} ScanValue(s: string, i: nat, v: nat)
    requires i <= |s| && v <= MAX_ID
    requires Numeric(s) && Value(s) <= MAX_ID ==> v == Value(s[..i])
    ensures Scan(s[i..], v).Some? ==> Numeric(s[i..]) && Scan(s[i..], v).value <= MAX_ID
    ensures Numeric(s) && Value(s) <= MAX_ID ==> Scan(s[i..], v) == Some(Value(s))
    decreases |s| - i
  {
    if i == |s| {
      assert s[..i] == s;
    } else if IsDigit(s[i]) {
      assert s[i..][1..] == s[i + 1..];
      if Numeric(s) && Value(s) <= MAX_ID {
        ValueGrows(s, i + 1);
        assert s[..i + 1][..i] == s[..i];
      }
      var w := (v * 10 + DigitValue(s[i])) % U32;
      if w <= MAX_ID { ScanValue(s, i + 1, w); }
    }
  }

  /** An accepted number is the one that was written exactly when that one is within the limit. */
  lemma ScanExact(s: string)
    requires Numeric(s) && Scan(s, 0).Some?
    ensures Scan(s, 0).value == Value(s) <==> Value(s) <= MAX_ID
  {
    assert s[0..] == s;
    ScanValue(s, 0, 0);
  }

  lemma {:induction false} ScanSnoc(s: string, c: char, v: nat)
    requires IsDigit(c) && Scan(s, v).Some?
    ensures Scan(s + [c], v) ==
      var w := (Scan(s, v).value * 10 + DigitValue(c)) % U32;
      if w > MAX_ID then None else Some(w)
  {
    if s == [] {
      assert s + [c] == [c] && [c][1..] == [];
    } else {
      ScanSnoc(s[1..], c, (v * 10 + DigitValue(s[0])) % U32);
      assert (s + [c])[1..] == s[1..] + [c];
    }
  }

  /** Numbers from 2^32 on can be accepted as small ones. */
  lemma ScanWraps(v: nat)
    requires v == U32 + 1
    ensures Scan(Digits(v), 0) == Some(1)
  {
    hide Scan;
    var t := Digits(v / 10);
    DigitsValue(v / 10);
    ScanValue(t, 0, 0);
    assert t[0..] == t;
    ScanSnoc(t, Digit(v % 10), 0);
  }

  /** The loops over the user and group numbers. */
  method ParseDec(s: string) returns (r: Option<nat>)
    ensures r == if s == [] then None else Scan(s, 0)
    ensures s != [] && Numeric(s) && Value(s) <= MAX_ID ==> r == Some(Value(s))
  {
    if s == [] {
      return None;
    }
    ScanValue(s, 0, 0);
    assert s[0..] == s;
    var v: nat := 0;
    for i := 0 to |s|
      invariant Scan(s, 0) == Scan(s[i..], v)
    {
      if !IsDigit(s[i]) {
        return None;
      }
      assert s[i..][1..] == s[i + 1..];
      v := (v * 10 + DigitValue(s[i])) % U32;
      if v > MAX_ID {
        return None;
      }
    }
    r := Some(v);
  }

  // Lines

  /** What precedes the first `c`, and what follows it. */
  ghost function Before(s: string, c: char): string
  {
    if s == [] || s[0] == c then [] else [s[0]] + Before(s[1..], c)
  }

  ghost function After(s: string, c: char): Option<string>
  {
    if s == [] then None else if s[0] == c then Some(s[1..]) else After(s[1..], c)
  }

  lemma {:induction false} SplitJoined(a: string, c: char, b: string)
    requires c !in a
    ensures Before(a + [c] + b, c) == a && After(a + [c] + b, c) == Some(b)
  {
    var s := a + [c] + b;
    if a == [] {
      assert s[1..] == b;
    } else {
      SplitJoined(a[1..], c, b);
      assert s[1..] == a[1..] + [c] + b;
    }
  }

  /** The scan for a separator. */
  method Split(s: string, c: char) returns (first: string, rest: Option<string>)
    ensures first == Before(s, c) && rest == After(s, c)
  {
    hide Before, After;
    var i := 0;
    assert s[0..] == s && s[..0] == [];
    assert [] + Before(s, c) == Before(s, c);
    while i < |s| && s[i] != c
      invariant 0 <= i <= |s| && Before(s, c) == s[..i] + Before(s[i..], c) && After(s, c) == After(s[i..], c)
    {
      SplitStep(s, i, c);
      assert s[..i + 1] == s[..i] + [s[i]];
      assert s[..i] + ([s[i]] + Before(s[i + 1..], c)) == s[..i + 1] + Before(s[i + 1..], c);
      i := i + 1;
    }
    SplitStep(s, i, c);
    first := s[..i];
    assert first + [] == first;
    rest := if i < |s| then Some(s[i + 1..]) else None;
  }

  /** One more character of the part before the separator, or its end. */
  lemma SplitStep(s: string, i: nat, c: char)
    requires i <= |s|
    ensures i == |s| ==> Before(s[i..], c) == [] && After(s[i..], c).None?
    ensures i < |s| && s[i] == c ==> Before(s[i..], c) == [] && After(s[i..], c) == Some(s[i + 1..])
    ensures i < |s| && s[i] != c ==> Before(s[i..], c) == [s[i]] + Before(s[i + 1..], c) && After(s[i..], c) == After(s[i + 1..], c)
  {
    if i < |s| { assert s[i..][1..] == s[i + 1..]; }
  }

  function Truncated(s: string, max: nat): (t: string)
    requires max > 0
    ensures t <= s && |t| == if |s| < max then |s| else max - 1
  {
    if |s| < max then s else s[..max - 1]
  }

  /** Fields that fit and hold no separator. */
  predicate Plain(s: string, max: nat)
  {
    |s| < max && ':' !in s && '\n' !in s && '\r' !in s
  }

  predicate Well(e: Entry)
  {
    Plain(e.name, NAME_MAX) && Plain(e.pass, PASS_MAX) && Plain(e.gecos, GECOS_MAX) && Plain(e.home, HOME_MAX) &&
    |e.shell| < SHELL_MAX && '\n' !in e.shell && '\r' !in e.shell &&
    e.uid <= MAX_ID && e.gid <= MAX_ID && (e.name != [] ==> e.name[0] != ' ' && e.name[0] != '\t' && e.name[0] != '#')
  }

  ghost function Fields(e: Entry): seq<string>
  {
    [e.name, e.pass, Digits(e.uid), Digits(e.gid), e.gecos, e.home, e.shell]
  }

  ghost function Join(fs: seq<string>): string
    requires fs != []
  {
    if |fs| == 1 then fs[0] else fs[0] + [':'] + Join(fs[1..])
  }

  /** The line of an entry, without the line end. */
  ghost function Line(e: Entry): string { Join(Fields(e)) }

  /** The columns of a line: the first `n` end at a colon, the last takes the rest. */
  ghost function Columns(s: string, n: nat): Option<seq<string>>
    decreases n
  {
    if n == 0 then Some([s])
    else if After(s, ':').None? then None
    else
      var rest := Columns(After(s, ':').value, n - 1);
      if rest.None? then None else Some([Before(s, ':')] + rest.value)
  }

  lemma {:induction false} ColumnsJoin(fs: seq<string>)
    requires fs != [] && forall i :: 0 <= i < |fs| - 1 ==> ':' !in fs[i]
    ensures Columns(Join(fs), |fs| - 1) == Some(fs)
    decreases |fs|
  {
    if |fs| > 1 {
      SplitJoined(fs[0], ':', Join(fs[1..]));
      ColumnsJoin(fs[1..]);
      assert fs == [fs[0]] + fs[1..];
    } else {
      assert fs == [fs[0]];
    }
  }

  /** `split_col` for all columns at once. */
  method SplitColumns(s: string, n: nat) returns (r: Option<seq<string>>)
    ensures r == Columns(s, n) && (r.Some? ==> |r.value| == n + 1)
    decreases n
  {
    if n == 0 {
      return Some([s]);
    }
    var first, rest := Split(s, ':');
    if rest.None? {
      return None;
    }
    var more := SplitColumns(rest.value, n - 1);
    r := if more.None? then None else Some([first] + more.value);
  }

  method SkipBlanks(s: string) returns (t: string)
    ensures s == [] || (s[0] != ' ' && s[0] != '\t') ==> t == s
    ensures t != [] ==> t[0] != ' ' && t[0] != '\t'
  {
    var i := 0;
    while i < |s| && (s[i] == ' ' || s[i] == '\t')
      invariant 0 <= i <= |s| && (s == [] || (s[0] != ' ' && s[0] != '\t') ==> i == 0)
    {
      i := i + 1;
    }
    t := s[i..];
  }

  /** The shell ends at the first line end. */
  method CutLineEnd(s: string) returns (t: string)
    ensures '\n' !in s && '\r' !in s ==> t == s
  {
    var i := 0;
    while i < |s| && s[i] != '\n' && s[i] != '\r'
      invariant 0 <= i <= |s|
    {
      i := i + 1;
    }
    t := s[..i];
  }

  lemma ColonFree(e: Entry, i: nat)
    requires Well(e) && i < 6
    ensures ':' !in Fields(e)[i]
  {
    DigitsValue(e.uid);
    DigitsValue(e.gid);
  }

  lemma LineStarts(e: Entry)
    requires Well(e)
    ensures Line(e) != [] && Line(e)[0] == (if e.name == [] then ':' else e.name[0])
  {
  }

  lemma LineColumns(e: Entry)
    requires Well(e)
    ensures Columns(Line(e), 6) == Some(Fields(e))
  {
    forall i | 0 <= i < 6 ensures ':' !in Fields(e)[i] { ColonFree(e, i); }
    ColumnsJoin(Fields(e));
  }

  /** `ob_passwd_parse_line`: the line of a well-formed entry gives the entry back. */
  method ParseLine(line: string, ghost e: Entry) returns (r: Option<Entry>)
    ensures Well(e) && line == Line(e) ==> r == Some(e)
    ensures r.Some? ==> |r.value.name| < NAME_MAX && r.value.uid <= MAX_ID && r.value.gid <= MAX_ID && ':' !in r.value.name
  {
    hide Line, Columns, Fields, Digits, Value, Scan;
    ghost var same := Well(e) && line == Line(e);
    if same { LineStarts(e); LineColumns(e); FieldsOf(e); }
    var t := SkipBlanks(line);
    if t == [] || t[0] == '#' {
      return None;
    }
    var cs := SplitColumns(t, 6);
    if cs.None? {
      return None;
    }
    var f := cs.value;
    var uid := ParseDec(f[2]);
    var gid := ParseDec(f[3]);
    if uid.None? || gid.None? {
      return None;
    }
    var shell := CutLineEnd(f[6]);
    var name := Truncated(f[0], NAME_MAX);
    if ':' in name || '\n' in name {
      return None;
    }
    ScanLimit(f[2]);
    ScanLimit(f[3]);
    r := Some(Entry(name, Truncated(f[1], PASS_MAX), uid.value, gid.value, Truncated(f[4], GECOS_MAX), Truncated(f[5], HOME_MAX),
                    Truncated(shell, SHELL_MAX)));
  }

  lemma FieldsOf(e: Entry)
    ensures |Fields(e)| == 7 && Fields(e)[0] == e.name && Fields(e)[1] == e.pass && Fields(e)[4] == e.gecos
    ensures Fields(e)[5] == e.home && Fields(e)[6] == e.shell
    ensures Numeric(Fields(e)[2]) && Value(Fields(e)[2]) == e.uid && Fields(e)[2] != []
    ensures Numeric(Fields(e)[3]) && Value(Fields(e)[3]) == e.gid && Fields(e)[3] != []
  {
    DigitsValue(e.uid);
    DigitsValue(e.gid);
  }

  lemma ScanLimit(s: string)
    ensures Scan(s, 0).Some? ==> Scan(s, 0).value <= MAX_ID
  {
    assert s[0..] == s;
    ScanValue(s, 0, 0);
  }

  /** Copies a field into the buffer as far as it fits. */
  function Clipped(out: string, field: string, cap: nat): string
  {
    if |out| + |field| + 1 <= cap then out + field else if |out| + 1 <= cap then out + field[..cap - 1 - |out|] else out
  }

  /** A field is never written past the last byte but one. */
  lemma ClippedFits(out: string, field: string, cap: nat)
    ensures |out| <= |Clipped(out, field, cap)| && (|Clipped(out, field, cap)| < cap || Clipped(out, field, cap) == out)
  {}

  /** If everything fits, what is written and the fields from `i` on make up the line. */
  ghost predicate Underway(out: string, f: seq<string>, i: nat, line: string, cap: nat)
    requires i <= |f|
  {
    |line| + 2 <= cap || |out| < cap ==> if i < |f| then out + Join(f[i..]) == line else out == line + ['\n']
  }

  lemma UnderwayStep(out: string, f: seq<string>, i: nat, line: string, cap: nat)
    requires i < |f| && Underway(out, f, i, line, cap)
    ensures Underway(Clipped(out, f[i], cap) + [if i < |f| - 1 then ':' else '\n'], f, i + 1, line, cap)
  {
    assert f[i..][1..] == f[i + 1..];
  }

  /**
   * `ob_passwd_format_line` into a buffer of `cap` bytes, with a zero byte behind `out`. Separators and line end are
   * written without a test, so everything stays inside the buffer exactly if the whole line fits.
   */
  method FormatLine(e: Entry, cap: nat) returns (out: string)
    requires e.uid < U32 && e.gid < U32
    ensures |out| + 1 <= cap <==> |Line(e)| + 2 <= cap
    ensures |Line(e)| + 2 <= cap ==> out == Line(e) + ['\n']
    ensures |out| <= if cap == 0 then 7 else cap + 6
  {
    var uid := FormatDec(e.uid);
    var gid := FormatDec(e.gid);
    var f := [e.name, e.pass, uid, gid, e.gecos, e.home, e.shell];
    assert f == Fields(e) && f[0..] == f;
    hide Join, Clipped, Fields;
    out := [];
    var i := 0;
    while i < 7
      invariant 0 <= i <= 7 && Underway(out, f, i, Line(e), cap) && |out| <= if cap == 0 then i else cap - 1 + i
    {
      ClippedFits(out, f[i], cap);
      UnderwayStep(out, f, i, Line(e), cap);
      out := Clipped(out, f[i], cap) + [if i < 6 then ':' else '\n'];
      i := i + 1;
    }
  }

  // The whole file

  ghost function Text(db: seq<Entry>): string
  {
    if db == [] then [] else Line(db[0]) + ['\n'] + Text(db[1..])
  }

  lemma {:induction false} TextAppend(db: seq<Entry>, e: Entry)
    ensures Text(db + [e]) == Text(db) + (Line(e) + ['\n'])
  {
    if db == [] {
      assert db + [e] == [e] && [e][1..] == [];
      assert Text([e]) == Line(e) + ['\n'] + [];
    } else {
      TextAppend(db[1..], e);
      assert (db + [e])[1..] == db[1..] + [e];
    }
  }

  lemma {:induction false} TextPrefix(db: seq<Entry>, i: nat)
    requires i <= |db|
    ensures |Text(db[..i])| <= |Text(db)|
    decreases |db| - i
  {
    if i < |db| {
      TextPrefix(db, i + 1);
      TextAppend(db[..i], db[i]);
      assert db[..i] + [db[i]] == db[..i + 1];
    } else {
      assert db[..i] == db;
    }
  }

  /** `build_pwbuf` with a buffer of `cap` bytes: the text of the database exactly if it fits. */
  method Build(db: seq<Entry>, cap: nat) returns (r: Option<string>)
    requires forall i :: 0 <= i < |db| ==> db[i].uid < U32 && db[i].gid < U32
    ensures r == if db == [] || |Text(db)| < cap then Some(Text(db)) else None
  {
    hide Text, Line;
    var buf := [];
    EmptyText();
    for i := 0 to |db|
      invariant buf == Text(db[..i]) && (i > 0 ==> |buf| < cap)
    {
      TextAppend(db[..i], db[i]);
      assert db[..i] + [db[i]] == db[..i + 1];
      TextPrefix(db, i + 1);
      var line := FormatLine(db[i], cap - |buf|);
      if |buf| + |line| >= cap {
        return None;
      }
      buf := buf + line;
    }
    assert db[..|db|] == db;
    r := Some(buf);
  }

  lemma EmptyText()
    ensures Text([]) == []
  {
  }

  lemma {:induction false} NewlineFree(fs: seq<string>)
    requires fs != [] && forall i :: 0 <= i < |fs| ==> '\n' !in fs[i]
    ensures '\n' !in Join(fs)
    decreases |fs|
  {
    if |fs| > 1 { NewlineFree(fs[1..]); }
  }

  lemma LineHasNoEnd(e: Entry)
    requires Well(e)
    ensures '\n' !in Line(e)
  {
    DigitsValue(e.uid);
    DigitsValue(e.gid);
    NewlineFree(Fields(e));
  }

  /** The first line of the text, and the rest. */
  lemma TextSplits(db: seq<Entry>)
    requires db != [] && Well(db[0])
    ensures Before(Text(db), '\n') == Line(db[0]) && After(Text(db), '\n') == Some(Text(db[1..]))
    ensures Text(db) != [] && Text(db)[0] != '\n' && Text(db)[0] != '\r' && Line(db[0]) != [] && Line(db[0])[0] != '#'
  {
    LineHasNoEnd(db[0]);
    LineStarts(db[0]);
    SplitJoined(Line(db[0]), '\n', Text(db[1..]));
  }

  method SkipLineEnds(s: string) returns (t: string)
    ensures s != [] && s[0] != '\n' && s[0] != '\r' ==> t == s
    ensures |t| <= |s|
  {
    var i := 0;
    while i < |s| && (s[i] == '\n' || s[i] == '\r')
      invariant 0 <= i <= |s| && (s != [] && s[0] != '\n' && s[0] != '\r' ==> i == 0)
    {
      i := i + 1;
    }
    t := s[i..];
  }

  /** `pwdb_parse_buffer`: parsing the text of a database of well-formed entries gives the same entries in order. */
  method ParseBuffer(buf: string, ghost want: seq<Entry>) returns (db: seq<Entry>)
    ensures |db| <= MAX_LINES
    ensures (forall i :: 0 <= i < |want| ==> Well(want[i])) && |want| <= MAX_LINES && buf == Text(want) ==> db == want
  {
    hide Text, Line, Before, After;
    ghost var same := (forall i :: 0 <= i < |want| ==> Well(want[i])) && |want| <= MAX_LINES && buf == Text(want);
    var rest := buf;
    db := [];
    assert want[0..] == want;
    while rest != []
      invariant |db| <= MAX_LINES
      invariant same ==> |db| <= |want| && db == want[..|db|] && rest == Text(want[|db|..])
      decreases |rest|
    {
      if same { NotAtEnd(want, |db|, rest); TextSplits(want[|db|..]); }
      ghost var k := |db|;
      rest := SkipLineEnds(rest);
      if rest == [] {
        break;
      }
      assert same ==> want[k..][1..] == want[k + 1..] && want[..k + 1] == want[..k] + [want[k]];
      var line, next := Split(rest, '\n');
      Shorter(rest, '\n');
      if line != [] && line[0] != '#' {
        var e := ParseLine(line, if k < |want| then want[k] else Entry([], [], 0, 0, [], [], []));
        if e.Some? && |db| < MAX_LINES {
          db := db + [e.value];
        }
      }
      rest := if next.Some? then next.value else [];
    }
    if same { AtEnd(want, |db|); }
  }

  lemma Shorter(s: string, c: char)
    requires s != []
    ensures After(s, c).Some? ==> |After(s, c).value| < |s|
  {
    if s[0] != c && s[1..] != [] { Shorter(s[1..], c); }
  }

  lemma NotAtEnd(want: seq<Entry>, k: nat, rest: string)
    requires k <= |want| && rest == Text(want[k..]) && rest != []
    ensures k < |want| && want[k..][0] == want[k]
  {
  }

  lemma AtEnd(want: seq<Entry>, k: nat)
    requires k <= |want| && Text(want[k..]) == []
    ensures want[..k] == want
  {
  }

  // Password hashes

  function Octet8(c: char): bv64 { (c as int % 256) as bv64 }

  /** `ob_fnv1a64` from the hash `h` on. */
  function Fnv(s: string, h: bv64): bv64
  {
    if s == [] then h else Fnv(s[1..], Mixed(h, s[0]))
  }

  /** One character more. */
  function Mixed(h: bv64, c: char): bv64 { (h ^ Octet8(c)) * 0x100000001b3 }

  const FNV_BASIS: bv64 := 0xcbf29ce484222325

  function Hash(s: string): (h: nat)
    ensures h < U64
  {
    Fnv(s, FNV_BASIS) as nat
  }

  /** The hash of a longer text, from that of the shorter one. */
  lemma {:induction false} FnvSnoc(s: string, c: char, h: bv64)
    ensures Fnv(s + [c], h) == Mixed(Fnv(s, h), c)
  {
    hide Mixed;
    if s == [] {
      assert [] + [c] == [c] && [c][1..] == [];
    } else {
      assert (s + [c])[1..] == s[1..] + [c];
      FnvSnoc(s[1..], c, Mixed(h, s[0]));
    }
  }

  /** Known values of that hash. */
  lemma HashValues()
    ensures Hash("") == 0xcbf29ce484222325 && Hash("a") == 0xaf63dc4c8601ec8c
  {
    hide Mixed;
    assert "a"[1..] == "";
    MixedValue();
    assert Fnv("a", FNV_BASIS) == Fnv("", Mixed(FNV_BASIS, 'a'));
  }

  lemma MixedValue()
    ensures Mixed(0xcbf29ce484222325, 'a') == 0xaf63dc4c8601ec8c
  {
    assert Octet8('a') == 0x61;
    assert 0xcbf29ce484222325 as bv64 ^ 0x61 == 0xcbf29ce484222344;
  }

  const HEX: string := "0123456789abcdef"

  /** The `n` low hexadecimal digits of `v`. */
  function Hex(v: nat, n: nat): (s: string)
    ensures |s| == n
  {
    if n == 0 then [] else Hex(v / 16, n - 1) + [HEX[v % 16]]
  }

  function HexValue(c: char): Option<nat>
  {
    if '0' <= c <= '9' then Some(c as nat - '0' as nat)
    else if 'a' <= c <= 'f' then Some(10 + (c as nat - 'a' as nat))
    else if 'A' <= c <= 'F' then Some(10 + (c as nat - 'A' as nat))
    else None
  }

  /** The number that hexadecimal digits denote, in 64-bit arithmetic. */
  function Unhex(s: string): Option<nat>
  {
    if s == [] then Some(0)
    else
      var high, low := Unhex(s[..|s| - 1]), HexValue(s[|s| - 1]);
      if high.None? || low.None? then None else Some((high.value * 16 + low.value) % U64)
  }

  function Power16(n: nat): (p: nat)
    ensures p > 0
  {
    if n == 0 then 1 else 16 * Power16(n - 1)
  }

  lemma HexDigit(d: nat)
    requires d < 16
    ensures HexValue(HEX[d]) == Some(d)
  {
  }

  lemma SixteenDigits()
    ensures Power16(16) == U64
  {
    assert Power16(16) == 16 * (16 * (16 * (16 * Power16(12))));
    assert Power16(12) == 16 * (16 * (16 * (16 * Power16(8))));
    assert Power16(8) == 16 * (16 * (16 * (16 * Power16(4))));
    assert Power16(4) == 16 * (16 * (16 * (16 * Power16(0))));
  }

  lemma {:induction false} UnhexHex(v: nat, n: nat)
    requires v < Power16(n) <= U64
    ensures Unhex(Hex(v, n)) == Some(v)
  {
    hide HexValue;
    if n > 0 {
      UnhexHex(v / 16, n - 1);
      HexDigit(v % 16);
      assert Hex(v, n)[..n - 1] == Hex(v / 16, n - 1);
    }
  }

  /** Letters of either case are read. */
  lemma HexCase(d: nat)
    requires 10 <= d < 16
    ensures HexValue(HEX[d]) == Some(d) && HexValue("0123456789ABCDEF"[d]) == Some(d) && HexValue('g') == None && HexValue('G') == None
  {}

  /** Hexadecimal letters are printed small, and the high digit first. */
  lemma HexLetters()
    ensures Hex(0xab, 2) == "ab" && Hex(0xcd, 2) == "cd" && Hex(0xef, 2) == "ef" && Hex(0x19, 2) == "19"
  {
    HexTwo(0xab);
    HexTwo(0xcd);
    HexTwo(0xef);
    HexTwo(0x19);
  }

  lemma HexTwo(v: nat)
    requires v < 256
    ensures Hex(v, 2) == [HEX[v / 16], HEX[v % 16]]
  {
    assert Hex(v / 16, 1) == Hex(v / 16 / 16, 0) + [HEX[v / 16 % 16]];
  }

  const TAG: string := "fnv1a64$"
  const PLAIN: string := "plain$"

  /** `u64_to_hex16`. */
  method ToHex(v: nat) returns (s: string)
    requires v < U64
    ensures s == Hex(v, 16)
  {
    s := [];
    var w := v;
    for i := 16 downto 0
      invariant |s| == 16 - i && Hex(v, 16) == Hex(w, i) + s
    {
      s := [HEX[w % 16]] + s;
      w := w / 16;
    }
    assert Hex(w, 0) + s == s;
  }

  /** `parse_hex_u64`. */
  method FromHex(s: string) returns (r: Option<nat>)
    ensures r == if s == [] || |s| > 16 then None else Unhex(s)
  {
    var v := 0;
    for i := 0 to |s|
      invariant Unhex(s[..i]) == Some(v) && v < U64
    {
      assert s[..i + 1][..i] == s[..i];
      var d := HexValue(s[i]);
      if d.None? {
        NotHex(s, i);
        return None;
      }
      v := (v * 16 + d.value) % U64;
    }
    assert s[..|s|] == s;
    if |s| == 0 || |s| > 16 {
      return None;
    }
    r := Some(v);
  }

  lemma {:induction false} NotHex(s: string, i: nat)
    requires i < |s| && HexValue(s[i]).None?
    ensures Unhex(s).None?
  {
    if i < |s| - 1 { NotHex(s[..|s| - 1], i); }
  }

  /** Whether a stored password text accepts an input. */
  ghost predicate Accepts(stored: string, input: string)
  {
    if stored == [] then true
    else if stored == "x" || stored == "*" then false
    else if PLAIN <= stored then stored[6..] == input
    else if TAG <= stored then
      var digits := stored[8..];
      digits != [] && |digits| <= 16 && Unhex(digits) == Some(Hash(input))
    else stored == input
  }

  /** The text stores the password: as it is, marked as plain, or as a hash. */
  ghost predicate Stores(stored: string, secret: string)
  {
    stored == secret || stored == PLAIN + secret || (TAG <= stored && Unhex(stored[8..]) == Some(Hash(secret)))
  }

  /** What a stored text accepts, by how it was printed. */
  lemma Printed(stored: string, input: string)
    ensures forall plain :: stored == PLAIN + plain ==> (Accepts(stored, input) <==> input == plain)
    ensures forall h: nat :: h < U64 && stored == TAG + Hex(h, 16) ==> (Accepts(stored, input) <==> Hash(input) == h)
    ensures Accepts(stored, input) ==> stored == [] || Stores(stored, input)
  {
    hide Hash, Hex, Unhex;
    forall h: nat | h < U64 && stored == TAG + Hex(h, 16)
      ensures Accepts(stored, input) <==> Hash(input) == h
    {
      SixteenDigits();
      UnhexHex(h, 16);
      assert stored[8..] == Hex(h, 16) && stored[0] == 'f';
    }
    forall plain | stored == PLAIN + plain
      ensures Accepts(stored, input) <==> input == plain
    {
      assert stored[6..] == plain && stored[0] == 'p' && stored[1] == 'l';
    }
  }

  /** `ob_verify_password`. */
  method VerifyPassword(stored: string, input: string) returns (ok: bool)
    ensures ok <==> Accepts(stored, input)
    ensures forall plain :: stored == PLAIN + plain ==> (ok <==> input == plain)
    ensures forall h: nat :: h < U64 && stored == TAG + Hex(h, 16) ==> (ok <==> Hash(input) == h)
    ensures ok ==> stored == [] || Stores(stored, input)
  {
    Printed(stored, input);
    if stored == [] {
      return true;
    }
    if stored == "x" || stored == "*" {
      return false;
    }
    if PLAIN <= stored {
      return stored[6..] == input;
    }
    if TAG <= stored {
      var h := FromHex(stored[8..]);
      return h == Some(Hash(input));
    }
    ok := stored == input;
  }

  /** `ob_hash_password` with a buffer of `cap` bytes. */
  method HashPassword(plain: string, cap: nat) returns (out: string)
    ensures out == if cap < 32 then [] else TAG + Hex(Hash(plain), 16)
  {
    if cap < 32 {
      return [];
    }
    var digits := ToHex(Hash(plain));
    out := TAG + digits;
  }

  /** A password is accepted by its own printed hash, and another one exactly when it has the same hash. */
  lemma OwnHash(plain: string, input: string)
    ensures Accepts(TAG + Hex(Hash(plain), 16), plain)
    ensures Accepts(TAG + Hex(Hash(plain), 16), input) <==> Hash(input) == Hash(plain)
  {
    hide Hash, Hex, Unhex;
    Printed(TAG + Hex(Hash(plain), 16), plain);
    Printed(TAG + Hex(Hash(plain), 16), input);
  }

  // Group members

  const MEMB_MAX: nat := 512

  /** Names joined by commas. */
  ghost function List(names: seq<string>): string
  {
    if names == [] then [] else if |names| == 1 then names[0] else names[0] + [','] + List(names[1..])
  }

  /** The pieces of a member list, as the code walks it. */
  ghost function Tokens(s: string): seq<string>
    decreases |s|
  {
    if s == [] then []
    else
      Shorter(s, ',');
      [Before(s, ',')] + (if After(s, ',').None? then [] else Tokens(After(s, ',').value))
  }

  /** Non-empty names without commas. */
  ghost predicate Names(names: seq<string>)
  {
    forall i :: 0 <= i < |names| ==> names[i] != [] && ',' !in names[i]
  }

  lemma {:induction false} NoComma(s: string)
    requires ',' !in s
    ensures Before(s, ',') == s && After(s, ',').None?
  {
    if s != [] { NoComma(s[1..]); }
  }

  lemma {:induction false} TokensList(names: seq<string>)
    requires Names(names)
    ensures Tokens(List(names)) == names
  {
    if |names| == 1 {
      NoComma(names[0]);
    } else if |names| > 1 {
      SplitJoined(names[0], ',', List(names[1..]));
      TokensList(names[1..]);
      assert names == [names[0]] + names[1..];
    }
  }

  lemma {:induction false} ListSnoc(names: seq<string>, user: string)
    requires names != []
    ensures List(names + [user]) == List(names) + [','] + user
  {
    if |names| == 1 {
      assert (names + [user])[1..] == [user];
    } else {
      ListSnoc(names[1..], user);
      assert (names + [user])[1..] == names[1..] + [user];
    }
  }

  ghost function Dropped(names: seq<string>, user: string): seq<string>
  {
    if names == [] then [] else (if names[0] == user then [] else [names[0]]) + Dropped(names[1..], user)
  }

  /** `mem_has_token`. */
  method HasToken(mem: string, user: string) returns (has: bool)
    ensures has <==> user in Tokens(mem)
  {
    hide Before, After;
    var p := mem;
    while p != []
      invariant user in Tokens(mem) <==> user in Tokens(p)
      decreases |p|
    {
      Shorter(p, ',');
      var first, rest := Split(p, ',');
      if first == user {
        return true;
      }
      if rest.None? {
        return false;
      }
      p := rest.value;
    }
    has := false;
  }

  /** The list with the user appended, before it is cut to the buffer. */
  function Extended(mem: string, user: string): string
  {
    if mem == [] then user else mem + [','] + user
  }

  /**
   * `ob_grdb_add_member` on a member list. For a list of names it is set insertion exactly if the user is
   * present or the longer list fits; otherwise it is refused, or a cut-off name is stored.
   */
  method AddMember(mem: string, user: string, ghost names: seq<string>) returns (err: int, r: string)
    ensures err == if user !in Tokens(mem) && mem != [] && |mem| + 2 >= MEMB_MAX then -1 else 0
    ensures r == if err != 0 || user in Tokens(mem) then mem else Truncated(Extended(mem, user), MEMB_MAX)
    ensures Names(names) && mem == List(names) ==>
      ((err == 0 && r == List(if user in names then names else names + [user])) <==>
       user in names || (|List(names + [user])| < MEMB_MAX && (mem == [] || |mem| + 2 < MEMB_MAX)))
  {
    if Names(names) && mem == List(names) {
      TokensList(names);
      ListNext(names, user);
      if names != [] { ListNonEmpty(names); }
    }
    var has := HasToken(mem, user);
    if has {
      return 0, mem;
    }
    r := mem;
    if |mem| > 0 {
      if |mem| + 2 >= MEMB_MAX {
        return -1, mem;
      }
      r := r + [','];
    }
    var room := MEMB_MAX - |r| - 1;
    r := r + (if |user| <= room then user else user[..room]);
    err := 0;
  }

  lemma ListNonEmpty(names: seq<string>)
    requires Names(names) && names != []
    ensures List(names) != []
  {
  }

  /** Copies one piece behind those already copied, as far as it fits. */
  method CopyPiece(out: string, first: bool, piece: string) returns (r: string)
    ensures |out| + |piece| + (if first then 0 else 1) < MEMB_MAX ==> r == if first then out + piece else out + [','] + piece
  {
    r := out;
    if !first && |r| + 1 < MEMB_MAX {
      r := r + [','];
    }
    if |r| + |piece| < MEMB_MAX {
      r := r + piece;
    }
  }

  lemma KeepPiece(kept: seq<string>, piece: string, more: seq<string>, user: string)
    ensures kept + Dropped([piece] + more, user) == (if piece == user then kept else kept + [piece]) + Dropped(more, user)
  {
    assert ([piece] + more)[1..] == more;
  }

  lemma ListNext(kept: seq<string>, piece: string)
    ensures List(kept + [piece]) == if kept == [] then piece else List(kept) + [','] + piece
  {
    if kept != [] { ListSnoc(kept, piece); } else { assert kept + [piece] == [piece]; }
  }

  /** `ob_grdb_remove_member` on a member list: every occurrence of the user goes, the others stay in order. */
  method RemoveMember(mem: string, user: string) returns (r: string)
    ensures |mem| < MEMB_MAX ==> r == List(Dropped(Tokens(mem), user))
  {
    hide Before, After, Dropped, List;
    var p := mem;
    ghost var kept: seq<string> := [];
    var first := true;
    r := [];
    NothingKept(user);
    while p != []
      invariant kept + Dropped(Tokens(p), user) == Dropped(Tokens(mem), user)
      invariant first <==> kept == []
      invariant |mem| < MEMB_MAX ==> r == List(kept) && |r| + |p| + (if first then 0 else 1) <= |mem|
      decreases |p|
    {
      Shorter(p, ',');
      Parts(p, ',');
      var piece, rest := Split(p, ',');
      KeepPiece(kept, piece, if rest.None? then [] else Tokens(rest.value), user);
      if piece != user {
        ListNext(kept, piece);
        assert first ==> r + piece == piece || |mem| >= MEMB_MAX by { NothingKept(user); }
        r := CopyPiece(r, first, piece);
        first := false;
        kept := kept + [piece];
      }
      if rest.None? {
        NothingKept(user);
        assert kept + [] == kept;
        return;
      }
      p := rest.value;
    }
    assert kept + [] == kept;
  }

  lemma NothingKept(user: string)
    ensures Dropped([], user) == [] && List([]) == []
  {
  }

  lemma {:induction false} Parts(s: string, c: char)
    ensures After(s, c).Some? ==> |s| == |Before(s, c)| + 1 + |After(s, c).value|
    ensures After(s, c).None? ==> Before(s, c) == s
  {
    if s != [] && s[0] != c { Parts(s[1..], c); }
  }
}
