/**
 SYSTEM.CNF: the line that names the boot program, and the startup name in it.
 */
module SystemCnf {
  import opened Words
  import opened HdlIso

  /** The classes of bytes that scanning loops run over. */
  datatype Class = Space | InLine | Break | Value

  predicate In(c: Class, b: byte) {
    match c
    case Space => IsSpace(b)
    case InLine => !IsBreak(b)
    case Break => IsBreak(b)
    case Value => !IsSpace(b) && !IsQuote(b)
  }

  predicate AllIn(c: Class, s: seq<byte>, from: nat, to: nat)
    requires to <= |s|
  {
    forall i :: from <= i < to ==> In(c, s[i])
  }

  /** The first position from `i` on that is not in the class. */
  function Skip(s: seq<byte>, c: Class, i: nat): (j: nat)
    requires i <= |s|
    ensures i <= j <= |s| && (j < |s| ==> !In(c, s[j]))
    decreases |s| - i
  {
    if i < |s| && In(c, s[i]) then Skip(s, c, i + 1) else i
  }

  lemma {:induction false} SkipIs(s: seq<byte>, c: Class, i: nat, j: nat)
    requires i <= j <= |s| && AllIn(c, s, i, j) && (j < |s| ==> !In(c, s[j]))
    ensures Skip(s, c, i) == j
    decreases j - i
  {
    if i < j {
      SkipIs(s, c, i + 1, j);
    }
  }

  lemma {:induction false} SkipAll(s: seq<byte>, c: Class, i: nat)
    requires i <= |s|
    ensures AllIn(c, s, i, Skip(s, c, i))
    decreases |s| - i
  {
    if i < |s| && In(c, s[i]) {
      SkipAll(s, c, i + 1);
    }
  }

  method SkipWhile(s: seq<byte>, c: Class, from: nat) returns (j: nat)
    requires from <= |s|
    ensures j == Skip(s, c, from)
  {
    j := from;
    while j < |s| && In(c, s[j])
      invariant from <= j <= |s| && Skip(s, c, j) == Skip(s, c, from)
    {
      j := j + 1;
    }
  }

  // ----- the startup name

  predicate ValidStartup(s: seq<byte>) {
    && |s| == 11 && s[4] == 0x5f && s[8] == 0x2e
    && (forall i :: 0 <= i < 4 ==> IsAlnum(s[i]))
    && (forall i :: 5 <= i < 8 ==> IsDigit(s[i]))
    && IsDigit(s[9]) && IsDigit(s[10])
  }

  method CheckStartup(s: seq<byte>) returns (valid: bool)
    ensures valid == ValidStartup(s)
  {
    if |s| != 11 || s[4] != 0x5f || s[8] != 0x2e {
      return false;
    }
    var i := 0;
    while i < 4
      invariant 0 <= i <= 4 && forall k :: 0 <= k < i ==> IsAlnum(s[k])
    {
      if !IsAlnum(s[i]) {
        return false;
      }
      i := i + 1;
    }
    i := 5;
    while i < 8
      invariant 5 <= i <= 8 && forall k :: 5 <= k < i ==> IsDigit(s[k])
    {
      if !IsDigit(s[i]) {
        return false;
      }
      i := i + 1;
    }
    return IsDigit(s[9]) && IsDigit(s[10]);
  }

  /** The characters that the parser tells apart. */
  lemma Characters(b: byte)
    ensures IsSpace(b) <==> b as char in {' ', '\t', '\n', '\r', '\U{b}', '\U{c}'}
    ensures IsBreak(b) <==> b as char in {'\r', '\n', '\0'}
    ensures IsQuote(b) <==> b as char in {'"', '\''}
    ensures IsSeparator(b) <==> b as char in {'\\', '/', ':'}
    ensures IsDigit(b) <==> '0' <= b as char <= '9'
    ensures IsAlnum(b) <==> '0' <= b as char <= '9' || 'A' <= b as char <= 'Z' || 'a' <= b as char <= 'z'
  {
  }

  /** The disc identifier that goes with a startup name: SLUS_123.45 is SLUS-12345. */
  function DiscId(startup: seq<byte>): (id: seq<byte>)
    requires |startup| == 11
    ensures |id| == 10
  {
    startup[..4] + [0x2d] + startup[5..8] + startup[9..11]
  }

  lemma DiscIdIs(s: seq<byte>)
    requires |s| == 11
    ensures DiscId(s) == [s[0], s[1], s[2], s[3], '-' as int, s[5], s[6], s[7], s[9], s[10]]
  {
  }

  // ----- one line

  datatype LineResult = NotBoot | StartupInvalid | Boot(startup: seq<byte>)

  /** Behind the last path separator of `s` before `end`, or `begin` if there is none. */
  function Base(s: seq<byte>, begin: nat, end: nat): (b: nat)
    requires begin <= end <= |s|
    ensures begin <= b <= end
    ensures forall i :: b <= i < end ==> !IsSeparator(s[i])
    ensures b == begin || IsSeparator(s[b - 1])
    decreases end - begin
  {
    if begin == end then begin
    else if IsSeparator(s[end - 1]) then end
    else Base(s, begin, end - 1)
  }

  /** Where the value of a boot line starts, unless the line is no boot line. */
  function ValueStart(line: seq<byte>): (v: Option<nat>)
    ensures v.Some? ==> v.value <= |line|
  {
    var begin := Skip(line, Space, 0);
    if |line| - begin < 5 || UpperAll(line[begin..begin + 5]) != BOOT2 then None else
      var equals := Skip(line, Space, begin + 5);
      if equals >= |line| || line[equals] != 0x3d then None else
        var v := Skip(line, Space, equals + 1);
        Some(if v < |line| && IsQuote(line[v]) then v + 1 else v)
  }

  /** The file name of the value that starts at `v`, without path and version. */
  function FileName(line: seq<byte>, v: nat): seq<byte>
    requires v <= |line|
  {
    var end := Skip(line, Value, v);
    var base := Base(line, v, end);
    if end >= base + 2 && line[end - 2] == 0x3b && line[end - 1] == 0x31 then line[base..end - 2]
    else line[base..end]
  }

  function LineOf(line: seq<byte>): LineResult {
    var v := ValueStart(line);
    if v.None? then NotBoot else
      var startup := UpperAll(FileName(line, v.value));
      if ValidStartup(startup) then Boot(startup) else StartupInvalid
  }

  method FindBase(s: seq<byte>, begin: nat, end: nat) returns (base: nat)
    requires begin <= end <= |s|
    ensures base == Base(s, begin, end)
  {
    base := begin;
    var i := begin;
    while i < end
      invariant begin <= i <= end && base == Base(s, begin, i)
    {
      if IsSeparator(s[i]) {
        base := i + 1;
      }
      i := i + 1;
    }
  }

  method FindValue(line: seq<byte>) returns (v: Option<nat>)
    ensures v == ValueStart(line)
  {
    var begin := SkipWhile(line, Space, 0);
    if |line| - begin < 5 {
      return None;
    }
    var boot := EqualNoCase(line[begin..begin + 5], BOOT2);
    assert UpperAll(BOOT2) == BOOT2;
    if !boot {
      return None;
    }
    var equals := SkipWhile(line, Space, begin + 5);
    if equals >= |line| || line[equals] != 0x3d {
      return None;
    }
    var start := SkipWhile(line, Space, equals + 1);
    if start < |line| && IsQuote(line[start]) {
      start := start + 1;
    }
    return Some(start);
  }

  /** The file name in the value that starts at `v`. */
  method FindName(line: seq<byte>, v: nat) returns (name: seq<byte>)
    requires v <= |line|
    ensures name == FileName(line, v)
  {
    var end := SkipWhile(line, Value, v);
    var base := FindBase(line, v, end);
    if end >= base + 2 && line[end - 2] == 0x3b && line[end - 1] == 0x31 {
      return line[base..end - 2];
    }
    return line[base..end];
  }

  method ParseLine(line: seq<byte>) returns (r: LineResult)
    ensures r == LineOf(line)
  {
    var value := FindValue(line);
    if value.None? {
      return NotBoot;
    }
    var name := FindName(line, value.value);
    if |name| >= STARTUP_MAX {
      return StartupInvalid;
    }
    var startup := UpperAll(name);
    var valid := CheckStartup(startup);
    if !valid {
      return StartupInvalid;
    }
    return Boot(startup);
  }

  // ----- the whole file

  datatype Parsed = Startup(name: seq<byte>, discId: seq<byte>) | BadStartup | NoBootLine

  /** What the lines from `position` on say. */
  function FirstBoot(data: seq<byte>, position: nat): LineResult
    requires position <= |data|
    decreases |data| - position
  {
    if position == |data| then NotBoot else
      var end := Skip(data, InLine, position);
      var next := Skip(data, Break, end);
      var r := LineOf(data[position..end]);
      assert next > position;
      if r.NotBoot? then FirstBoot(data, next) else r
  }

  method ParseSystemCnf(data: seq<byte>) returns (r: Parsed)
    ensures match FirstBoot(data, 0)
            case NotBoot => r == NoBootLine
            case StartupInvalid => r == BadStartup
            case Boot(startup) => |startup| == 11 && r == Startup(startup, DiscId(startup))
  {
    var position := 0;
    while position < |data|
      invariant 0 <= position <= |data| && FirstBoot(data, position) == FirstBoot(data, 0)
      decreases |data| - position
    {
      var begin := position;
      var end := SkipWhile(data, InLine, position);
      position := SkipWhile(data, Break, end);
      assert position > begin;
      var line := ParseLine(data[begin..end]);
      match line {
        case NotBoot =>
        case StartupInvalid => return BadStartup;
        case Boot(startup) => return Startup(startup, DiscId(startup));
      }
    }
    return NoBootLine;
  }

  // ----- what a boot line means

  lemma UpperValid(x: seq<byte>)
    requires ValidStartup(x)
    ensures ValidStartup(UpperAll(x))
  {
  }

  /** Bytes of a startup name are neither spaces, quotes, line breaks nor path separators. */
  lemma StartupBytes(x: seq<byte>, i: nat)
    requires ValidStartup(x) && i < 11
    ensures In(Value, x[i]) && In(InLine, x[i]) && !IsSeparator(x[i]) && x[i] != 0x3b
  {
    assert i < 4 || i == 4 || 5 <= i < 8 || i == 8 || i == 9 || i == 10;
  }

  lemma {:induction false} BaseIs(s: seq<byte>, begin: nat, base: nat, end: nat)
    requires begin <= base <= end <= |s| && (base == begin || IsSeparator(s[base - 1]))
    requires forall i :: base <= i < end ==> !IsSeparator(s[i])
    ensures Base(s, begin, end) == base
    decreases end
  {
    if base < end {
      BaseIs(s, begin, base, end - 1);
    }
  }

  /** Where the parts of a boot line begin: keyword, equals sign, value, path, name, and the end of the value. */
  datatype Cuts = Cuts(word: nat, equals: nat, value: nat, path: nat, name: nat, end: nat)

  /** Spaces, the keyword in any case, spaces, an equals sign, spaces. */
  predicate IsHead(line: seq<byte>, c: Cuts) {
    && c.word + 5 <= c.equals < c.value <= c.path <= |line|
    && AllIn(Space, line, 0, c.word) && UpperAll(line[c.word..c.word + 5]) == BOOT2
    && AllIn(Space, line, c.word + 5, c.equals) && line[c.equals] == 0x3d
    && AllIn(Space, line, c.equals + 1, c.value)
  }

  /** A quote or none, a path or none, a valid startup name, and ";1" or not; then a space, a quote or the end. */
  predicate IsValue(line: seq<byte>, c: Cuts) {
    && c.value <= c.path <= c.name && c.name + 11 <= c.end <= |line|
    && (c.path == c.value || (c.path == c.value + 1 && IsQuote(line[c.value])))
    && AllIn(Value, line, c.path, c.name) && (c.name == c.path || IsSeparator(line[c.name - 1]))
    && ValidStartup(line[c.name..c.name + 11])
    && (c.end == c.name + 11 || (c.end == c.name + 13 && line[c.name + 11] == 0x3b && line[c.name + 12] == 0x31))
    && (c.end < |line| ==> !In(Value, line[c.end]))
  }

  lemma NameBytes(line: seq<byte>, c: Cuts)
    requires IsValue(line, c)
    ensures AllIn(Value, line, c.path, c.end)
    ensures forall i :: c.name <= i < c.end ==> !IsSeparator(line[i])
    ensures line[c.name + 9] != 0x3b
  {
    var x := line[c.name..c.name + 11];
    forall i | c.name <= i < c.end ensures In(Value, line[i]) && !IsSeparator(line[i]) {
      if i < c.name + 11 {
        StartupBytes(x, i - c.name);
        assert line[i] == x[i - c.name];
      }
    }
    StartupBytes(x, 9);
  }

  lemma HeadFound(line: seq<byte>, c: Cuts)
    requires IsHead(line, c) && IsValue(line, c)
    ensures ValueStart(line) == Some(c.path)
  {
    NameBytes(line, c);
    var boot := line[c.word..c.word + 5];
    assert Upper(boot[0]) == BOOT2[0] by { assert UpperAll(boot)[0] == Upper(boot[0]); }
    SkipIs(line, Space, 0, c.word);
    SkipIs(line, Space, c.word + 5, c.equals);
    SkipIs(line, Space, c.equals + 1, c.value);
  }

  lemma NameFound(line: seq<byte>, c: Cuts)
    requires IsValue(line, c)
    ensures FileName(line, c.path) == line[c.name..c.name + 11]
  {
    NameBytes(line, c);
    SkipIs(line, Value, c.path, c.end);
    BaseIs(line, c.path, c.name, c.end);
  }

  /**
   Any boot line gives its startup name, in upper case, whatever the case of
   the keyword, the spacing, the quotes, the path and the version suffix.
   */
  lemma BootLineParses(line: seq<byte>, c: Cuts)
    requires IsHead(line, c) && IsValue(line, c)
    ensures LineOf(line) == Boot(UpperAll(line[c.name..c.name + 11]))
  {
    HeadFound(line, c);
    NameFound(line, c);
    UpperValid(line[c.name..c.name + 11]);
  }

  lemma HeadStarts(line: seq<byte>, c: Cuts)
    requires IsHead(line, c)
    ensures ValueStart(line).Some?
  {
    var boot := line[c.word..c.word + 5];
    assert Upper(boot[0]) == BOOT2[0] by { assert UpperAll(boot)[0] == Upper(boot[0]); }
    SkipIs(line, Space, 0, c.word);
    SkipIs(line, Space, c.word + 5, c.equals);
  }

  /** Where the keyword, the equals sign and the value of a boot line are. */
  lemma HeadOf(line: seq<byte>) returns (c: Cuts)
    requires ValueStart(line).Some?
    ensures IsHead(line, c) && c.path == ValueStart(line).value
    ensures c.path == c.value || (c.path == c.value + 1 && IsQuote(line[c.value]))
  {
    var word := Skip(line, Space, 0);
    var equals := Skip(line, Space, word + 5);
    SkipAll(line, Space, 0);
    SkipAll(line, Space, word + 5);
    SkipAll(line, Space, equals + 1);
    c := Cuts(word, equals, Skip(line, Space, equals + 1), ValueStart(line).value, 0, 0);
  }

  lemma LowerValid(x: seq<byte>)
    requires ValidStartup(UpperAll(x))
    ensures ValidStartup(x)
  {
    assert UpperAll(x)[4] == Upper(x[4]) && UpperAll(x)[8] == Upper(x[8]);
    assert UpperAll(x)[9] == Upper(x[9]) && UpperAll(x)[10] == Upper(x[10]);
    forall i | 0 <= i < 4 ensures IsAlnum(x[i]) {
      assert IsAlnum(UpperAll(x)[i]);
    }
    forall i | 5 <= i < 8 ensures IsDigit(x[i]) {
      assert IsDigit(UpperAll(x)[i]);
    }
  }

  /** The parts of a value that holds a valid startup name. */
  lemma ValueOf(line: seq<byte>, head: Cuts) returns (c: Cuts)
    requires IsHead(line, head) && ValidStartup(UpperAll(FileName(line, head.path)))
    requires head.path == head.value || (head.path == head.value + 1 && IsQuote(line[head.value]))
    ensures IsHead(line, c) && IsValue(line, c)
  {
    var end := Skip(line, Value, head.path);
    var name := Base(line, head.path, end);
    SkipAll(line, Value, head.path);
    LowerValid(FileName(line, head.path));
    c := head.(name := name, end := end);
    assert FileName(line, head.path) == line[name..name + 11];
  }

  /**
   What makes a line a boot line. It is one exactly if it has the keyword and
   an equals sign, and it names a startup exactly if its value has the form
   that is described; with any other value it is an invalid one.
   */
  lemma BootLinesAre(line: seq<byte>)
    ensures LineOf(line).NotBoot? <==> !exists c :: IsHead(line, c)
    ensures LineOf(line).Boot? <==> exists c :: IsHead(line, c) && IsValue(line, c)
  {
    if ValueStart(line).Some? {
      var head := HeadOf(line);
      if LineOf(line).Boot? {
        var c := ValueOf(line, head);
      }
    }
    if c :| IsHead(line, c) {
      HeadStarts(line, c);
    }
    if c :| IsHead(line, c) && IsValue(line, c) {
      BootLineParses(line, c);
    }
  }

  // ----- lines before the boot line

  /** A line of the file, with its line break. */
  predicate IsLine(data: seq<byte>, begin: nat, end: nat) {
    && begin <= end < |data| && (begin == 0 || IsBreak(data[begin - 1]))
    && AllIn(InLine, data, begin, end) && IsBreak(data[end])
  }

  /** Line breaks at a position do not change what is found from there. */
  lemma BreaksSkipped(data: seq<byte>, p: nat)
    requires p <= |data|
    ensures FirstBoot(data, p) == FirstBoot(data, Skip(data, Break, p))
  {
    if p < |data| && IsBreak(data[p]) {
      EmptyLine();
      assert data[p..p] == [];
    }
  }

  lemma EmptyLine()
    ensures LineOf([]).NotBoot?
  {
    assert Skip([], Space, 0) == 0;
  }

  lemma OneLinePassed(data: seq<byte>, begin: nat, end: nat)
    requires IsLine(data, begin, end) && LineOf(data[begin..end]).NotBoot?
    ensures FirstBoot(data, begin) == FirstBoot(data, end + 1)
  {
    SkipIs(data, InLine, begin, end);
    assert Skip(data, Break, end) == Skip(data, Break, end + 1);
    BreaksSkipped(data, end + 1);
  }

  /** Every line that ends before `p` is some other line. */
  ghost predicate NoBootBefore(data: seq<byte>, p: nat)
    requires p <= |data|
  {
    forall b: nat, e: nat :: IsLine(data, b, e) && e < p ==> LineOf(data[b..e]).NotBoot?
  }

  /** The next line, if it ends before `p`, is no boot line and is passed over. */
  lemma NextLinePassed(data: seq<byte>, begin: nat, p: nat) returns (end: nat)
    requires begin < p <= |data| && (begin == 0 || IsBreak(data[begin - 1])) && IsBreak(data[p - 1])
    requires NoBootBefore(data, p)
    ensures begin <= end < p && IsBreak(data[end])
    ensures FirstBoot(data, begin) == FirstBoot(data, end + 1)
  {
    end := Skip(data, InLine, begin);
    SkipAll(data, InLine, begin);
    assert end < p by { assert IsBreak(data[p - 1]); }
    assert IsLine(data, begin, end);
    OneLinePassed(data, begin, end);
  }

  /** Lines that are no boot lines are passed over. */
  lemma {:induction false} LinesPassed(data: seq<byte>, begin: nat, p: nat)
    requires begin <= p <= |data| && (begin == 0 || IsBreak(data[begin - 1])) && (p == 0 || IsBreak(data[p - 1]))
    requires NoBootBefore(data, p)
    ensures FirstBoot(data, begin) == FirstBoot(data, p)
    decreases p - begin
  {
    if begin < p {
      var end := NextLinePassed(data, begin, p);
      LinesPassed(data, end + 1, p);
    }
  }

  /** The first boot line decides, whatever its value is. */
  lemma FirstLineDecides(data: seq<byte>, p: nat, end: nat)
    requires p <= end <= |data| && (p == 0 || IsBreak(data[p - 1])) && (end < |data| ==> IsBreak(data[end]))
    requires AllIn(InLine, data, p, end) && NoBootBefore(data, p) && !LineOf(data[p..end]).NotBoot?
    ensures FirstBoot(data, 0) == LineOf(data[p..end])
  {
    LinesPassed(data, 0, p);
    SkipIs(data, InLine, p, end);
    if p == |data| {
      EmptyLine();
    }
  }

  /**
   The startup name of a disc. A boot line after any lines that are none gives
   its startup name, in upper case; what follows that line does not matter.
   */
  lemma StartupFound(data: seq<byte>, p: nat, end: nat, c: Cuts)
    requires p <= end <= |data| && (p == 0 || IsBreak(data[p - 1])) && (end < |data| ==> IsBreak(data[end]))
    requires AllIn(InLine, data, p, end) && NoBootBefore(data, p)
    requires IsHead(data[p..end], c) && IsValue(data[p..end], c)
    ensures FirstBoot(data, 0) == Boot(UpperAll(data[p..end][c.name..c.name + 11]))
  {
    BootLineParses(data[p..end], c);
    FirstLineDecides(data, p, end);
  }

  /** "BOOT2 = cdrom0:" and a backslash. */
  const USUAL: seq<byte> := [
    0x42, 0x4f, 0x4f, 0x54, 0x32, 0x20, 0x3d, 0x20, 0x63, 0x64, 0x72, 0x6f, 0x6d, 0x30, 0x3a, 0x5c]

  /** The usual form of the line: BOOT2 = cdrom0:, a backslash, the startup name and version 1. */
  lemma UsualForm(x: seq<byte>)
    requires ValidStartup(x)
    ensures IsHead(USUAL + x + [0x3b, 0x31], Cuts(0, 6, 8, 8, 16, 29))
    ensures IsValue(USUAL + x + [0x3b, 0x31], Cuts(0, 6, 8, 8, 16, 29))
    ensures LineOf(USUAL + x + [0x3b, 0x31]) == Boot(UpperAll(x))
  {
    var line := USUAL + x + [0x3b, 0x31];
    assert line[0..5] == BOOT2 && UpperAll(BOOT2) == BOOT2;
    assert line[16..27] == x;
    BootLineParses(line, Cuts(0, 6, 8, 8, 16, 29));
  }
}
