/** The desktop layout file of `pulpit.c`: what is printed for the icons is read back as the same icons. */
module DesktopLayout {
  import opened ModArith

  const MAX_ICONS: nat := 32
  const BUFFER_SIZE: nat := 1024

  datatype Icon = Icon(name: string, x: int, y: int, folder: bool)

  const END: char := 0 as char

  predicate IsSpace(c: char) {
    c == ' ' || c == '\n' || c == '\r' || c == '\t'
  }

  /** What separates the parts of a text: blank, new line, carriage return and tab. */
  lemma Separators(c: char)
    ensures IsSpace(c) <==> c as int in {32, 10, 13, 9}
  {
  }

  predicate IsDigit(c: char) {
    '0' <= c <= '9'
  }

  /** Names that fit in the saved record and hold no separator, and coordinates on the screen. */
  predicate Plain(icon: Icon) {
    && 0 < |icon.name| <= 12 && (forall i :: 0 <= i < |icon.name| ==> !IsSpace(icon.name[i]) && icon.name[i] != END)
    && 0 <= icon.x < 1024 && 0 <= icon.y < 768
  }

  // ---- Numbers ----

  predicate AllDigits(s: string) {
    forall i :: 0 <= i < |s| ==> IsDigit(s[i])
  }

  function Digit(d: int): (c: char)
    requires 0 <= d < 10
    ensures IsDigit(c) && DigitValue(c) == d
  {
    (d + '0' as int) as char
  }

  function DigitValue(c: char): (d: nat)
    requires IsDigit(c)
    ensures d < 10
  {
    c as int - '0' as int
  }

  /** The decimal digits of a number, none for zero. */
  function Digits(v: nat): (s: string)
    ensures AllDigits(s) && (v > 0 ==> |s| > 0)
  {
    if v == 0 then "" else Digits(v / 10) + [Digit(v % 10)]
  }

  function Decimal(v: nat): (s: string)
    ensures |s| > 0 && AllDigits(s)
  {
    if v == 0 then "0" else Digits(v)
  }

  function Value(s: string): (v: nat)
    requires AllDigits(s)
  {
    if |s| == 0 then 0 else 10 * Value(s[..|s| - 1]) + DigitValue(s[|s| - 1])
  }

  lemma {:induction false} ValueOfDigits(v: nat)
    ensures Value(Digits(v)) == v
  {
    if v > 0 {
      var s := Digits(v);
      assert s[..|s| - 1] == Digits(v / 10);
      ValueOfDigits(v / 10);
    }
  }

  lemma ValueOfDecimal(v: nat)
    ensures Value(Decimal(v)) == v
  {
    ValueOfDigits(v);
    if v == 0 {
      assert Value("0"[..0]) == 0;
    }
  }

  lemma {:induction false} DigitCount(v: nat, k: nat)
    requires k > 0 && v < Power10(k)
    ensures |Decimal(v)| <= k && |Digits(v)| <= k
    decreases k
  {
    if k > 1 && v > 0 {
      DigitCount(v / 10, k - 1);
    } else if v > 0 {
      assert Digits(v / 10) == "";
    }
  }

  function Power10(k: nat): (p: nat)
    ensures p > 0
  {
    if k == 0 then 1 else 10 * Power10(k - 1)
  }

  lemma {:induction false} DigitPlaces(v: nat, i: nat)
    requires i < |Digits(v)|
    ensures Digits(v)[|Digits(v)| - 1 - i] as int == '0' as int + v / Power10(i) % 10
    ensures Digits(v)[0] != '0'
    decreases v
  {
    if v < 10 {
      assert v / 10 == 0 && Digits(v) == [Digit(v)];
      assert Power10(0) == 1 && v / 1 == v;
    } else {
      assert Digits(v)[0] == Digits(v / 10)[0];
      if i == 0 {
        DigitPlaces(v / 10, 0);
        assert Power10(0) == 1 && v / 1 == v;
      } else {
        DigitPlaces(v / 10, i - 1);
        TenthQuotient(v, Power10(i - 1));
      }
    }
  }

  lemma TenthQuotient(v: int, p: int)
    requires p > 0
    ensures v / 10 / p == v / (10 * p)
  {
    var q := v / 10;
    assert v == 10 * q + v % 10 && q == (q / p) * p + q % p;
    assert 10 * ((q / p) * p) == (q / p) * (10 * p);
    ModUnique(v, q / p, 10 * (q % p) + v % 10, 10 * p);
  }

  /** Digit i from the right is the i-th decimal digit of the number, and none is written in front of the first. */
  lemma DecimalPlaces(v: nat, i: nat)
    requires i < |Decimal(v)|
    ensures Decimal(v)[|Decimal(v)| - 1 - i] as int == '0' as int + v / Power10(i) % 10
    ensures v > 0 ==> Decimal(v)[0] != '0'
    ensures v == 0 ==> Decimal(v) == "0"
  {
    if v > 0 {
      DigitPlaces(v, i);
    } else {
      assert Power10(0) == 1;
    }
  }

  // ---- Lines ----

  function Line(icon: Icon): string
    requires icon.x >= 0 && icon.y >= 0
  {
    icon.name + " " + Decimal(icon.x) + " " + Decimal(icon.y) + " " + (if icon.folder then "1" else "0") + "\n"
  }

  ghost predicate AllPlain(icons: seq<Icon>) {
    forall i :: 0 <= i < |icons| ==> Plain(icons[i])
  }

  ghost function Text(icons: seq<Icon>): string
    requires AllPlain(icons)
  {
    if |icons| == 0 then "" else
      assert Plain(icons[0]);
      Line(icons[0]) + Text(icons[1..])
  }

  /** A line takes at most 24 characters, so 32 of them fit in the buffer. */
  lemma LineFits(icon: Icon)
    requires Plain(icon)
    ensures |Line(icon)| <= 24
  {
    NumbersFit(icon);
  }

  lemma {:induction false} TextFits(icons: seq<Icon>)
    requires AllPlain(icons)
    ensures |Text(icons)| <= 24 * |icons|
  {
    hide Plain;
    if |icons| > 0 {
      LineFits(icons[0]);
      TextFits(icons[1..]);
    }
  }

  lemma {:induction false} TextConcat(a: seq<Icon>, b: seq<Icon>)
    requires AllPlain(a) && AllPlain(b)
    ensures AllPlain(a + b) && Text(a + b) == Text(a) + Text(b)
  {
    hide Plain, Line;
    if |a| == 0 {
      assert a + b == b;
    } else {
      assert (a + b)[1..] == a[1..] + b;
      TextConcat(a[1..], b);
    }
  }

  lemma TextOne(icon: Icon)
    requires Plain(icon)
    ensures AllPlain([icon]) && Text([icon]) == Line(icon)
  {
    assert Text([icon][1..]) == "";
  }

  // ---- Printing ----

  ghost function Backwards(s: string): (r: string)
    ensures |r| == |s|
  {
    if |s| == 0 then "" else [s[|s| - 1]] + Backwards(s[..|s| - 1])
  }

  /** The digits of a number, the lowest first. */
  method CollectDigits(value: nat, tmp: array<char>) returns (t: nat)
    requires |Digits(value)| <= tmp.Length
    modifies tmp
    ensures t <= tmp.Length && Backwards(tmp[..t]) == Digits(value)
  {
    t := 0;
    var v := value;
    while v > 0
      invariant t + |Digits(v)| == |Digits(value)|
      invariant Digits(value) == Digits(v) + Backwards(tmp[..t])
    {
      ghost var was := tmp[..t];
      tmp[t] := Digit(v % 10);
      assert tmp[..t + 1] == was + [Digit(v % 10)];
      assert tmp[..t + 1][..t] == was;
      v := v / 10;
      t := t + 1;
    }
  }

  /** The collected digits, written from the last to the first. */
  method WriteBackwards(buffer: array<char>, pos: nat, tmp: array<char>, count: nat) returns (next: nat)
    requires count <= tmp.Length && pos + count <= buffer.Length && tmp != buffer
    modifies buffer
    ensures next == pos + count && buffer[pos..next] == Backwards(tmp[..count]) && buffer[..pos] == old(buffer[..pos])
  {
    next := pos;
    var t := count;
    ghost var start := buffer[..pos];
    assert buffer[pos..next] == "";
    while t > 0
      invariant 0 <= t <= count && next + t == pos + count
      invariant buffer[..pos] == start && buffer[pos..next] + Backwards(tmp[..t]) == Backwards(tmp[..count])
    {
      t := t - 1;
      assert tmp[..t + 1][..t] == tmp[..t];
      ghost var was := buffer[pos..next];
      buffer[next] := tmp[t];
      next := next + 1;
      assert buffer[pos..next] == was + [tmp[t]];
    }
  }

  lemma DecimalOf(value: nat)
    ensures Decimal(value) == if value == 0 then "0" else Digits(value)
  {
  }

  /** `zapisz_uint`: the digits are collected backwards and written forwards. */
  method PrintNumber(buffer: array<char>, pos: nat, value: nat) returns (next: nat)
    requires |Decimal(value)| <= 8 && pos + |Decimal(value)| <= buffer.Length
    modifies buffer
    ensures next == pos + |Decimal(value)| && buffer[..next] == old(buffer[..pos]) + Decimal(value)
  {
    hide Digits;
    DecimalOf(value);
    ghost var start := buffer[..pos];
    if value == 0 {
      buffer[pos] := '0';
      assert buffer[..pos + 1] == start + ['0'];
      return pos + 1;
    }
    var tmp := new char[8](_ => '0');
    var t := CollectDigits(value, tmp);
    next := WriteBackwards(buffer, pos, tmp, t);
    assert buffer[..next] == start + buffer[pos..next];
  }

  method PrintChar(buffer: array<char>, pos: nat, c: char) returns (next: nat)
    requires pos < buffer.Length
    modifies buffer
    ensures next == pos + 1 && buffer[..next] == old(buffer[..pos]) + [c]
  {
    buffer[pos] := c;
    next := pos + 1;
  }

  /** One round of the loop of `ikony_zapisz_uklad`. */
  method PrintIcon(buffer: array<char>, pos: nat, icon: Icon) returns (next: nat)
    requires Plain(icon) && pos + |Line(icon)| <= buffer.Length
    modifies buffer
    ensures next == pos + |Line(icon)| && buffer[..next] == old(buffer[..pos]) + Line(icon)
  {
    hide Decimal;
    NumbersFit(icon);
    ghost var start := buffer[..pos];
    next := pos;
    for j := 0 to |icon.name|
      invariant next == pos + j && buffer[..next] == start + icon.name[..j]
    {
      assert icon.name[..j + 1] == icon.name[..j] + [icon.name[j]];
      next := PrintChar(buffer, next, icon.name[j]);
    }
    ghost var line := icon.name;
    next := PrintChar(buffer, next, ' ');
    line := Longer(buffer[..next], start, line, " ");
    next := PrintNumber(buffer, next, icon.x);
    line := Longer(buffer[..next], start, line, Decimal(icon.x));
    next := PrintChar(buffer, next, ' ');
    line := Longer(buffer[..next], start, line, " ");
    next := PrintNumber(buffer, next, icon.y);
    line := Longer(buffer[..next], start, line, Decimal(icon.y));
    next := PrintChar(buffer, next, ' ');
    line := Longer(buffer[..next], start, line, " ");
    next := PrintChar(buffer, next, if icon.folder then '1' else '0');
    line := Longer(buffer[..next], start, line, if icon.folder then "1" else "0");
    next := PrintChar(buffer, next, '\n');
    line := Longer(buffer[..next], start, line, "\n");
  }

  lemma Longer(all: string, start: string, line: string, more: string) returns (longer: string)
    requires all == start + line + more
    ensures longer == line + more && all == start + longer
  {
    longer := line + more;
  }

  lemma NumbersFit(icon: Icon)
    requires Plain(icon)
    ensures |Decimal(icon.x)| <= 4 && |Decimal(icon.y)| <= 3
  {
    assert Power10(0) == 1 && Power10(1) == 10 && Power10(2) == 100 && Power10(3) == 1000 && Power10(4) == 10000;
    DigitCount(icon.x, 4);
    DigitCount(icon.y, 3);
  }

  /** `ikony_zapisz_uklad` up to the writing of the file: the text fits in the buffer. */
  method PrintLayout(icons: seq<Icon>) returns (buffer: array<char>, pos: nat)
    requires |icons| <= MAX_ICONS && AllPlain(icons)
    ensures fresh(buffer) && buffer.Length == BUFFER_SIZE && pos < BUFFER_SIZE
    ensures buffer[..pos] == Text(icons) && buffer[pos] == END
  {
    hide Line, Plain;
    buffer := new char[BUFFER_SIZE](_ => END);
    pos := 0;
    assert icons[..0] == [];
    for i := 0 to |icons|
      invariant pos <= 24 * i && buffer[..pos] == Text(icons[..i])
    {
      LineFits(icons[i]);
      TextConcat(icons[..i], [icons[i]]);
      assert icons[..i + 1] == icons[..i] + [icons[i]];
      TextOne(icons[i]);
      pos := PrintIcon(buffer, pos, icons[i]);
    }
    assert icons[..|icons|] == icons;
    ghost var text := buffer[..pos];
    buffer[pos] := END;
    assert buffer[..pos] == text;
  }

  // ---- Reading ----

  /** The loops over the text read up to a zero character at the end of the buffer. */
  ghost predicate Terminated(s: string) {
    |s| > 0 && s[|s| - 1] == END
  }

  /** Only the last character ends the loops, which do not look at the length. */
  lemma NotLast(s: string, q: nat)
    requires Terminated(s) && q < |s| && s[q] != END
    ensures q + 1 < |s|
  {
  }

  method SkipBlanks(s: string, p: nat) returns (q: nat)
    requires Terminated(s) && p < |s|
    ensures p <= q < |s| && !IsSpace(s[q]) && forall k :: p <= k < q ==> IsSpace(s[k])
  {
    q := p;
    while IsSpace(s[q])
      invariant p <= q < |s| && forall k :: p <= k < q ==> IsSpace(s[k])
      decreases |s| - q
    {
      q := q + 1;
    }
  }

  method SkipSpaces(s: string, p: nat) returns (q: nat)
    requires Terminated(s) && p < |s|
    ensures p <= q < |s| && s[q] != ' ' && forall k :: p <= k < q ==> s[k] == ' '
  {
    q := p;
    while s[q] == ' '
      invariant p <= q < |s| && forall k :: p <= k < q ==> s[k] == ' '
      decreases |s| - q
    {
      q := q + 1;
    }
  }

  method SkipLine(s: string, p: nat) returns (q: nat)
    requires Terminated(s) && p < |s|
    ensures p <= q < |s| && EndsLine(s[q]) && forall k :: p <= k < q ==> !EndsLine(s[k])
  {
    q := p;
    while !EndsLine(s[q])
      invariant p <= q < |s| && forall k :: p <= k < q ==> !EndsLine(s[k])
      decreases |s| - q
    {
      q := q + 1;
    }
  }

  predicate EndsLine(c: char) {
    c == END || c == '\n' || c == '\r'
  }

  predicate InName(c: char) {
    c != END && !IsSpace(c)
  }

  method ReadName(s: string, p: nat) returns (name: string, q: nat)
    requires Terminated(s) && p < |s|
    ensures p <= q < |s| && q <= p + 12 && name == s[p..q]
    ensures forall k :: p <= k < q ==> InName(s[k])
    ensures q < p + 12 ==> !InName(s[q])
  {
    hide Terminated;
    name, q := "", p;
    while InName(s[q]) && q < p + 12
      invariant p <= q < |s| && q <= p + 12 && name == s[p..q]
      invariant forall k :: p <= k < q ==> InName(s[k])
      decreases p + 12 - q
    {
      NotLast(s, q);
      name := name + [s[q]];
      q := q + 1;
    }
  }

  lemma ValueGrows(s: string, c: char)
    requires AllDigits(s) && IsDigit(c)
    ensures AllDigits(s + [c]) && Value(s + [c]) == 10 * Value(s) + DigitValue(c)
  {
    assert (s + [c])[..|s|] == s;
  }

  /** `parsuj_uint`. */
  method ParseNumber(s: string, p: nat) returns (v: nat, q: nat)
    requires Terminated(s) && p < |s|
    ensures p <= q < |s| && AllDigits(s[p..q]) && !IsDigit(s[q]) && v == Value(s[p..q])
  {
    v, q := 0, p;
    while IsDigit(s[q])
      invariant p <= q < |s| && AllDigits(s[p..q]) && v == Value(s[p..q])
      decreases |s| - q
    {
      assert s[p..q + 1] == s[p..q] + [s[q]];
      ValueGrows(s[p..q], s[q]);
      v := v * 10 + DigitValue(s[q]);
      q := q + 1;
    }
  }

  /** A line stands at a place of the text. */
  ghost predicate LineAt(s: string, p: nat, icon: Icon) {
    Plain(icon) && p + |Line(icon)| < |s| && s[p..p + |Line(icon)|] == Line(icon)
  }

  /** A line holds the name, the two coordinates and the folder flag, set apart by blanks and ended by a new line. */
  lemma PartsOfText(icon: Icon)
    requires icon.x >= 0 && icon.y >= 0
    ensures var a := |icon.name|;
      var b := a + 1 + |Decimal(icon.x)|;
      var c := b + 1 + |Decimal(icon.y)|;
      var l := Line(icon);
      && |l| == c + 3 && l[..a] == icon.name && l[a] == ' ' && l[a + 1..b] == Decimal(icon.x) && l[b] == ' '
      && l[b + 1..c] == Decimal(icon.y) && l[c] == ' ' && l[c + 1] == (if icon.folder then '1' else '0') && l[c + 2] == '\n'
  {
    hide Decimal;
  }

  lemma PartOfSlice(s: string, p: nat, l: string, i: nat, j: nat)
    requires p + |l| <= |s| && s[p..p + |l|] == l && i <= j <= |l|
    ensures s[p + i..p + j] == l[i..j] && (i < |l| ==> s[p + i] == l[i])
  {
    assert i < |l| ==> s[p + i] == s[p..p + |l|][i];
    forall m | 0 <= m < j - i
      ensures s[p + i..p + j][m] == l[i..j][m]
    {
      assert s[p..p + |l|][i + m] == s[p + i + m];
    }
  }

  lemma PlainNumbers(icon: Icon)
    requires Plain(icon)
    ensures icon.x >= 0 && icon.y >= 0
  {
  }

  /** Where the parts of a line are. */
  lemma PartsOfLine(s: string, p: nat, icon: Icon)
    requires LineAt(s, p, icon)
    ensures icon.x >= 0 && icon.y >= 0
    ensures var a := p + |icon.name|;
      var b := a + 1 + |Decimal(icon.x)|;
      var c := b + 1 + |Decimal(icon.y)|;
      && c + 3 == p + |Line(icon)| < |s|
      && s[p..a] == icon.name && s[a] == ' ' && s[a + 1..b] == Decimal(icon.x) && s[b] == ' '
      && s[b + 1..c] == Decimal(icon.y) && s[c] == ' ' && s[c + 1] == (if icon.folder then '1' else '0') && s[c + 2] == '\n'
  {
    hide Line, Decimal, Plain;
    PlainNumbers(icon);
    PartsOfText(icon);
    var l := Line(icon);
    var a := |icon.name|;
    var b := a + 1 + |Decimal(icon.x)|;
    var c := b + 1 + |Decimal(icon.y)|;
    PartOfSlice(s, p, l, 0, a);
    PartOfSlice(s, p, l, a, a);
    PartOfSlice(s, p, l, a + 1, b);
    PartOfSlice(s, p, l, b, b);
    PartOfSlice(s, p, l, b + 1, c);
    PartOfSlice(s, p, l, c, c);
    PartOfSlice(s, p, l, c + 1, c + 1);
    PartOfSlice(s, p, l, c + 2, c + 2);
  }

  /** Skips spaces and parses a number; where one space and the digits from..to stand, their value is read. */
  method NextNumber(s: string, p: nat, ghost at: bool, ghost from: nat, ghost to: nat) returns (v: nat, q: nat)
    requires Terminated(s) && p < |s|
    requires at ==> s[p] == ' ' && from == p + 1 < to < |s| && AllDigits(s[from..to]) && !IsDigit(s[to])
    ensures p <= q < |s|
    ensures at ==> q == to && v == Value(s[from..to])
  {
    hide Value;
    q := SkipSpaces(s, p);
    assert at ==> s[from] == s[from..to][0] && q == from;
    v, q := ParseNumber(s, q);
    if at {
      NumberEnds(s, from, to, q);
    }
  }

  /**
   One round of the loop of `ikony_wczytaj_uklad` behind the blanks; where a line of the layout stands, its
   icon is read and the end of the line is reached.
   */
  method ReadIcon(s: string, p: nat, ghost there: Icon) returns (icon: Icon, q: nat)
    requires Terminated(s) && p < |s| && InName(s[p])
    ensures p < q < |s| && EndsLine(s[q])
    ensures LineAt(s, p, there) ==> icon == there && q == p + |Line(there)| - 1
  {
    hide Decimal, Plain, Line, Value, AllDigits;
    ghost var at := LineAt(s, p, there);
    ghost var a, b, c := p + |there.name|, 0, 0;
    if at {
      PartsOfLine(s, p, there);
      b := a + 1 + |Decimal(there.x)|;
      c := b + 1 + |Decimal(there.y)|;
      NameOfLine(s, p, there);
      ValueOfDecimal(there.x);
      ValueOfDecimal(there.y);
      ValueOfFlag(there.folder);
      assert s[c + 1..c + 2] == if there.folder then "1" else "0";
    }
    var name, k := ReadName(s, p);
    var x, y, folder;
    x, k := NextNumber(s, k, at, a + 1, b);
    y, k := NextNumber(s, k, at, b + 1, c);
    folder, k := NextNumber(s, k, at, c + 1, c + 2);
    icon := Icon(name, x, y, folder != 0);
    q := SkipLine(s, k);
  }

  lemma NameOfLine(s: string, p: nat, icon: Icon)
    requires LineAt(s, p, icon)
    ensures 0 < |icon.name| <= 12 && icon.x >= 0 && icon.y >= 0 && p + |icon.name| < |s|
    ensures forall k :: p <= k < p + |icon.name| ==> InName(s[k])
  {
    PartsOfLine(s, p, icon);
    forall k | p <= k < p + |icon.name|
      ensures InName(s[k])
    {
      assert s[k] == icon.name[k - p];
    }
  }

  lemma ValueOfFlag(folder: bool)
    ensures AllDigits(if folder then "1" else "0") && Value(if folder then "1" else "0") == if folder then 1 else 0
  {
    assert Value("1"[..0]) == 0 && Value("0"[..0]) == 0;
  }

  /** A run of digits that is followed by no digit ends there. */
  lemma NumberEnds(s: string, from: nat, to: nat, q: nat)
    requires from <= to < |s| && AllDigits(s[from..to]) && !IsDigit(s[to])
    requires from <= q < |s| && AllDigits(s[from..q]) && !IsDigit(s[q])
    ensures q == to
  {
  }

  /** What is left to read at a place: the lines of these icons, behind the end of the line before them if there was one. */
  ghost predicate LeftAt(s: string, p: nat, begun: bool, icons: seq<Icon>)
    requires p <= |s| && AllPlain(icons)
  {
    s[p..] == (if begun then "\n" else "") + Text(icons) + [END]
  }

  lemma TextStarts(icons: seq<Icon>)
    requires AllPlain(icons) && icons != []
    ensures icons[0].x >= 0 && icons[0].y >= 0
    ensures Text(icons) == Line(icons[0]) + Text(icons[1..]) && |Line(icons[0])| > 1
    ensures InName(Text(icons)[0]) && Line(icons[0])[|Line(icons[0])| - 1..] == "\n"
  {
    assert Plain(icons[0]);
    assert Text(icons)[0] == Line(icons[0])[0] == icons[0].name[0];
  }

  lemma BlanksEnd(s: string, p: nat, q: nat, begun: bool, icons: seq<Icon>)
    requires p < |s| && AllPlain(icons) && LeftAt(s, p, begun, icons)
    requires p <= q < |s| && !IsSpace(s[q]) && forall k :: p <= k < q ==> IsSpace(s[k])
    ensures LeftAt(s, q, false, icons) && (icons == [] <==> s[q] == END)
  {
    hide Text, Line, Plain;
    var t := Text(icons);
    var from := if begun then p + 1 else p;
    if icons != [] {
      TextStarts(icons);
    } else {
      TextOfNone();
    }
    assert begun ==> s[p..][0] == s[p] == '\n';
    assert s[from..] == t + [END] by {
      assert s[p..] == (if begun then "\n" else "") + (t + [END]);
      assert s[from..] == s[p..][from - p..];
    }
    assert s[from] == (t + [END])[0];
    assert q == from;
    assert "" + t == t;
  }

  lemma BegunAtEnd(s: string, p: nat, icons: seq<Icon>)
    requires p < |s| && AllPlain(icons) && LeftAt(s, p, true, icons)
    ensures s[p] == '\n'
  {
    assert s[p] == s[p..][0];
  }

  lemma TextOfNone()
    ensures Text([]) == ""
  {
  }

  /** Where lines are left, the first of them stands, and reading it up to its end leaves the others. */
  lemma FirstLine(s: string, p: nat, icons: seq<Icon>)
    requires p < |s| && AllPlain(icons) && icons != [] && LeftAt(s, p, false, icons)
    ensures LineAt(s, p, icons[0]) && LeftAt(s, p + |Line(icons[0])| - 1, true, icons[1..])
  {
    hide Text, Line, Plain;
    TextStarts(icons);
    var l := Line(icons[0]);
    var rest := Text(icons[1..]) + [END];
    assert Plain(icons[0]);
    assert s[p..] == l + rest by {
      assert "" + Text(icons) == Text(icons);
    }
    assert s[p..p + |l|] == s[p..][..|l|] == l;
    assert s[p + |l| - 1..] == s[p..][|l| - 1..] == l[|l| - 1..] + rest;
  }

  /**
   `ikony_wczytaj_uklad` on the text of the file: every text is read without leaving it, and the text of up
   to 32 icons, one at least, gives these icons back. An empty text leaves what was saved before.
   */
  method ReadLayout(s: string, before: seq<Icon>, ghost icons: seq<Icon>) returns (saved: seq<Icon>, ok: bool)
    requires Terminated(s)
    ensures |s| == 1 ==> saved == before && !ok
    ensures AllPlain(icons) && 0 < |icons| <= MAX_ICONS && s == Text(icons) + [END] ==> ok && saved == icons
  {
    hide Text, Line, LeftAt, Plain;
    if |s| == 1 {
      if AllPlain(icons) && icons != [] {
        TextStarts(icons);
      }
      return before, false;
    }
    ghost var good := AllPlain(icons) && 0 < |icons| <= MAX_ICONS && s == Text(icons) + [END];
    saved := [];
    var p := 0;
    if good {
      LeftAtStart(s, icons);
    }
    while s[p] != END && |saved| < MAX_ICONS
      invariant p < |s| && |saved| <= MAX_ICONS
      invariant good ==> saved <= icons && AllPlain(icons[|saved|..]) && LeftAt(s, p, |saved| > 0, icons[|saved|..])
      invariant good && s[p] == END ==> saved == icons
      decreases |s| - p
    {
      var q := SkipBlanks(s, p);
      ghost var left := if good then icons[|saved|..] else [];
      if good {
        BlanksEnd(s, p, q, |saved| > 0, left);
      }
      p := q;
      if s[p] == END {
        assert good ==> saved == icons;
        break;
      }
      if good {
        FirstLine(s, p, left);
      }
      var icon;
      icon, p := ReadIcon(s, p, if good then left[0] else Icon("", 0, 0, false));
      saved := saved + [icon];
      if good {
        assert icons[|saved|..] == left[1..];
        BegunAtEnd(s, p, left[1..]);
      }
    }
    ok := |saved| > 0;
  }

  lemma LeftAtStart(s: string, icons: seq<Icon>)
    requires AllPlain(icons) && 0 < |icons| && s == Text(icons) + [END]
    ensures icons[0..] == icons && LeftAt(s, 0, false, icons) && s[0] != END
  {
    TextStarts(icons);
    assert s[0] == Text(icons)[0];
    assert s[0..] == s && "" + Text(icons) == Text(icons);
  }
}
