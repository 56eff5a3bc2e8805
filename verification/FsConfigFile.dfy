/** The config files of the file worker (fs.c): how they are parsed, line by line in a
    512-byte buffer, and how they are printed. */
module FsConfigFile {
  import opened CStrings
  import opened MachineWords

  const MAX_FIELD_LEN: nat := 256
  const LINE_SIZE: nat := 512

  datatype FsConfig = FsConfig(
    id: i32, monitorSwitch: bool, name: string, path: string, operations: string, alarmCmd: string)

  // ----- text

  /** `s[i..]` is `s` without its leading space; `s[..i]` without its trailing space. */
  predicate Leads(s: string, i: nat) {
    i <= |s| && (forall k :: 0 <= k < i ==> IsSpace(s[k])) && (i < |s| ==> !IsSpace(s[i]))
  }

  predicate Trails(s: string, i: nat) {
    i <= |s| && (forall k :: i <= k < |s| ==> IsSpace(s[k])) && (i > 0 ==> !IsSpace(s[i - 1]))
  }

  lemma {:induction false} LStripCut(s: string) returns (i: nat)
    ensures Leads(s, i) && LStrip(s) == s[i..]
  {
    if s != "" && IsSpace(s[0]) {
      i := LStripCut(s[1..]);
      assert s[1..][i..] == s[i + 1..];
      i := i + 1;
    } else {
      i := 0;
    }
  }

  lemma {:induction false} RStripCut(s: string) returns (i: nat)
    ensures Trails(s, i) && RStrip(s) == s[..i]
  {
    if s != "" && IsSpace(s[|s| - 1]) {
      i := RStripCut(s[..|s| - 1]);
    } else {
      i := |s|;
    }
  }

  lemma LStripIs(s: string, i: nat)
    requires Leads(s, i)
    ensures LStrip(s) == s[i..]
  {
    var j := LStripCut(s);
    assert i == j;
  }

  lemma RStripIs(s: string, i: nat)
    requires Trails(s, i)
    ensures RStrip(s) == s[..i]
  {
    var j := RStripCut(s);
    assert i == j;
  }

  /** Stripping cuts out a stretch that neither begins nor ends with a space. */
  lemma StripCut(s: string) returns (i: nat, j: nat)
    ensures i <= j <= |s| && Strip(s) == s[i..j]
    ensures Leads(s, i) && (i < j ==> !IsSpace(s[j - 1]) && Trails(s, j)) && (i == j ==> i == |s|)
  {
    i := LStripCut(s);
    var n := RStripCut(s[i..]);
    j := i + n;
    assert s[i..][..n] == s[i..j];
    assert i < |s| ==> s[i..][0] == s[i];
    forall k | j <= k < |s| ensures IsSpace(s[k]) { assert s[k] == s[i..][k - i]; }
  }

  function ToLower(c: char): char { if 'A' <= c <= 'Z' then (c as int - 'A' as int + 'a' as int) as char else c }

  /** `strcasecmp(s, t) == 0`. */
  predicate SameIgnoringCase(s: string, t: string) {
    |s| == |t| && forall i :: 0 <= i < |s| ==> ToLower(s[i]) == ToLower(t[i])
  }

  /** `strchr` on a string. */
  function IndexOf(s: string, c: char): Option<nat> {
    if s == "" then None
    else if s[0] == c then Some(0)
    else match IndexOf(s[1..], c) case None => None case Some(k) => Some(k + 1)
  }

  predicate FirstAt(s: string, c: char, k: nat) {
    k < |s| && s[k] == c && forall j :: 0 <= j < k ==> s[j] != c
  }

  lemma {:induction false} IndexOfIs(s: string, c: char)
    ensures match IndexOf(s, c) case None => c !in s case Some(k) => FirstAt(s, c, k)
    ensures forall k: nat :: FirstAt(s, c, k) ==> IndexOf(s, c) == Some(k)
  {
    if s != "" && s[0] != c {
      IndexOfIs(s[1..], c);
      forall k: nat | FirstAt(s, c, k) ensures IndexOf(s, c) == Some(k) { assert FirstAt(s[1..], c, k - 1); }
    }
  }

  // ----- parsing

  /** How many characters `fgets` takes into a buffer of `LINE_SIZE`: a line with its
      newline, or as much as fits. */
  function ChunkLen(s: string): (n: nat)
    ensures n <= |s| && n < LINE_SIZE && (s != "" ==> n > 0)
  {
    IndexOfIs(s, '\n');
    match IndexOf(s, '\n')
    case Some(k) => if k + 1 < LINE_SIZE then k + 1 else LINE_SIZE - 1
    case None => if |s| < LINE_SIZE then |s| else LINE_SIZE - 1
  }

  /** The pieces in which `fgets` reads a file. */
  function Chunks(content: string): seq<string> {
    if content == "" then []
    else [content[..ChunkLen(content)]] + Chunks(content[ChunkLen(content)..])
  }

  datatype Setting = Setting(key: string, value: string)

  /** The key and value on a trimmed line: none on blank lines, comments and lines without `=`. */
  function SettingIn(line: string): Option<Setting> {
    if line == "" || line[0] == '#' then None
    else match IndexOf(line, '=')
      case None => None
      case Some(e) => IndexOfIs(line, '='); Some(Setting(Strip(line[..e]), Strip(line[e + 1..])))
  }

  function SettingOf(chunk: string): Option<Setting> { SettingIn(Strip(CStr(chunk))) }

  function Set(c: FsConfig, s: Setting): FsConfig {
    if s.key == "NAME" then c.(name := Trunc(s.value, MAX_FIELD_LEN))
    else if s.key == "PATH" then c.(path := Trunc(s.value, MAX_FIELD_LEN))
    else if s.key == "OPERATIONS" then c.(operations := Trunc(s.value, MAX_FIELD_LEN))
    else if s.key == "ALARM_COMMAND" then c.(alarmCmd := Trunc(s.value, MAX_FIELD_LEN))
    else if s.key == "MONITOR_SWITCH" then c.(monitorSwitch := SameIgnoringCase(s.value, "on"))
    else c
  }

  function ApplyLine(c: FsConfig, chunk: string): FsConfig {
    match SettingOf(chunk) case None => c case Some(s) => Set(c, s)
  }

  function ParseLines(c: FsConfig, chunks: seq<string>): FsConfig
    decreases |chunks|
  {
    if chunks == [] then c else ParseLines(ApplyLine(c, chunks[0]), chunks[1..])
  }

  function Default(id: i32): FsConfig { FsConfig(id, false, "", "", "write,delete,rename,chmod", "") }

  predicate Usable(c: FsConfig) { c.name != "" && c.path != "" }

  /** A file gives a config when it sets a name and a path. */
  function ParseFile(content: string, id: i32): Option<FsConfig> {
    var c := ParseLines(Default(id), Chunks(content));
    if Usable(c) then Some(c) else None
  }

  // ----- printing

  function Line(key: string, value: string): string { key + "=" + value + "\n" }

  function AlarmText(c: FsConfig): string { if c.alarmCmd == "" then "true" else c.alarmCmd }

  function Print(c: FsConfig): string {
    Line("MONITOR_SWITCH", if c.monitorSwitch then "on" else "off") + FourLines(c)
  }

  function FourLines(c: FsConfig): string {
    Line("NAME", c.name) + (Line("PATH", c.path) + TwoLines(c))
  }

  function TwoLines(c: FsConfig): string { Line("OPERATIONS", c.operations) + Line("ALARM_COMMAND", AlarmText(c)) }

  // ----- what parsing guarantees of a field

  /** Text that survives a line: short, one line, no NUL, no space in front. */
  predicate FieldText(s: string) {
    |s| < MAX_FIELD_LEN && '\n' !in s && NoNul(s) && (s != "" ==> !IsSpace(s[0]))
  }

  predicate WellParsed(c: FsConfig) {
    FieldText(c.name) && FieldText(c.path) && FieldText(c.operations) && FieldText(c.alarmCmd)
  }

  /** Only the last character of a chunk may be a newline. */
  predicate OneLine(s: string) { forall k :: 0 <= k < |s| - 1 ==> s[k] != '\n' }

  lemma CutGivesText(s: string, i: nat, j: nat)
    requires NoNul(s) && OneLine(s) && i <= j <= |s| && (i < j ==> !IsSpace(s[i]) && !IsSpace(s[j - 1]))
    ensures var t := s[i..j];
            FieldText(Trunc(t, MAX_FIELD_LEN)) && OneLine(t) && NoNul(t)
  {
    var t := s[i..j];
    assert forall k :: 0 <= k < |t| ==> t[k] == s[i + k];
  }

  lemma StripGivesText(s: string)
    requires NoNul(s) && OneLine(s)
    ensures FieldText(Trunc(Strip(s), MAX_FIELD_LEN)) && OneLine(Strip(s)) && NoNul(Strip(s))
  {
    var i, j := StripCut(s);
    CutGivesText(s, i, j);
  }

  lemma ValueIsFieldText(chunk: string)
    requires OneLine(chunk) && SettingOf(chunk).Some?
    ensures FieldText(Trunc(SettingOf(chunk).value.value, MAX_FIELD_LEN))
  {
    var s := CStr(chunk);
    assert forall k :: 0 <= k < |s| ==> s[k] == chunk[k];
    StripGivesText(s);
    var line := Strip(s);
    IndexOfIs(line, '=');
    var e := IndexOf(line, '=').value;
    var v := line[e + 1..];
    assert forall k :: 0 <= k < |v| ==> v[k] == line[e + 1 + k];
    StripGivesText(v);
  }

  lemma {:induction false} ChunksAreLines(content: string)
    ensures forall i :: 0 <= i < |Chunks(content)| ==> OneLine(Chunks(content)[i])
    decreases |content|
  {
    if content != "" {
      IndexOfIs(content, '\n');
      ChunksAreLines(content[ChunkLen(content)..]);
    }
  }

  lemma {:induction false} ParsedFields(c: FsConfig, chunks: seq<string>)
    requires WellParsed(c) && forall i :: 0 <= i < |chunks| ==> OneLine(chunks[i])
    ensures WellParsed(ParseLines(c, chunks)) && ParseLines(c, chunks).id == c.id
    decreases |chunks|
  {
    if chunks != [] {
      ParsedLine(c, chunks[0]);
      ParsedFields(ApplyLine(c, chunks[0]), chunks[1..]);
    }
  }

  lemma ParsedLine(c: FsConfig, chunk: string)
    requires WellParsed(c) && OneLine(chunk)
    ensures WellParsed(ApplyLine(c, chunk)) && ApplyLine(c, chunk).id == c.id
  {
    match SettingOf(chunk) {
      case None =>
      case Some(s) =>
        ValueIsFieldText(chunk);
        SetIsWellParsed(c, s);
    }
  }

  lemma SetIsWellParsed(c: FsConfig, s: Setting)
    requires WellParsed(c) && FieldText(Trunc(s.value, MAX_FIELD_LEN))
    ensures WellParsed(Set(c, s)) && Set(c, s).id == c.id
  {
  }

  /** The value of the last setting of this key, if there is one. */
  function LastSetting(chunks: seq<string>, key: string): Option<string>
    decreases |chunks|
  {
    if chunks == [] then None
    else match LastSetting(chunks[1..], key)
      case Some(v) => Some(v)
      case None =>
        match SettingOf(chunks[0]) case None => None case Some(s) => if s.key == key then Some(s.value) else None
  }

  function FieldFrom(last: Option<string>, default: string): string {
    match last case None => default case Some(v) => Trunc(v, MAX_FIELD_LEN)
  }

  function SwitchFrom(last: Option<string>, default: bool): bool {
    match last case None => default case Some(v) => SameIgnoringCase(v, "on")
  }

  lemma SetsItsField(c: FsConfig, s: Setting)
    ensures var c' := Set(c, s);
            && c'.id == c.id
            && c'.name == (if s.key == "NAME" then Trunc(s.value, MAX_FIELD_LEN) else c.name)
            && c'.path == (if s.key == "PATH" then Trunc(s.value, MAX_FIELD_LEN) else c.path)
            && c'.operations == (if s.key == "OPERATIONS" then Trunc(s.value, MAX_FIELD_LEN) else c.operations)
            && c'.alarmCmd == (if s.key == "ALARM_COMMAND" then Trunc(s.value, MAX_FIELD_LEN) else c.alarmCmd)
            && c'.monitorSwitch ==
                 (if s.key == "MONITOR_SWITCH" then SameIgnoringCase(s.value, "on") else c.monitorSwitch)
  {
  }

  /** A repeated key is no error: every field ends up with the last setting of its key, and
      keeps its default when there is none. */
  lemma {:induction false} LastSettingWins(c: FsConfig, chunks: seq<string>)
    ensures var r := ParseLines(c, chunks);
            && r.id == c.id
            && r.name == FieldFrom(LastSetting(chunks, "NAME"), c.name)
            && r.path == FieldFrom(LastSetting(chunks, "PATH"), c.path)
            && r.operations == FieldFrom(LastSetting(chunks, "OPERATIONS"), c.operations)
            && r.alarmCmd == FieldFrom(LastSetting(chunks, "ALARM_COMMAND"), c.alarmCmd)
            && r.monitorSwitch == SwitchFrom(LastSetting(chunks, "MONITOR_SWITCH"), c.monitorSwitch)
    decreases |chunks|
  {
    if chunks != [] {
      LastSettingWins(ApplyLine(c, chunks[0]), chunks[1..]);
      match SettingOf(chunks[0]) {
        case None =>
        case Some(s) => SetsItsField(c, s);
      }
    }
  }

  /** Every config that parsing yields has well-formed fields, a name, a path and the id
      it was parsed under. */
  lemma ParseIsWellParsed(content: string, id: i32)
    requires ParseFile(content, id).Some?
    ensures WellParsed(ParseFile(content, id).value) && Usable(ParseFile(content, id).value)
    ensures ParseFile(content, id).value.id == id
  {
    DefaultOperationsText();
    ChunksAreLines(content);
    ParsedFields(Default(id), Chunks(content));
  }

  lemma DefaultOperationsText()
    ensures FieldText("write,delete,rename,chmod")
  {
  }

  // ----- the round trip

  /** A field as printing and parsing leave it. */
  function Norm(c: FsConfig): FsConfig {
    c.(name := RStrip(c.name), path := RStrip(c.path), operations := RStrip(c.operations),
       alarmCmd := RStrip(AlarmText(c)))
  }

  predicate KeyText(s: string) {
    s != "" && s[0] != '#' && |s| <= 14 && forall k :: 0 <= k < |s| ==> s[k] != '=' && s[k] != NUL && !IsSpace(s[k])
  }

  /** A printed line: key, `=`, value, newline, character by character. */
  predicate Printed(line: string, key: string, value: string) {
    && |line| == |key| + 1 + |value| + 1 && line[|key|] == '=' && line[|line| - 1] == '\n'
    && (forall k :: 0 <= k < |key| ==> line[k] == key[k])
    && (forall k :: 0 <= k < |value| ==> line[|key| + 1 + k] == value[k])
  }

  lemma LineIsPrinted(key: string, value: string)
    ensures Printed(Line(key, value), key, value)
  {
  }

  /** Behind the key every character of a printed line but the last is one of the value. */
  lemma PrintedTail(line: string, key: string, value: string, k: nat)
    requires Printed(line, key, value) && |key| < k < |line| - 1
    ensures line[k] == value[k - |key| - 1]
  {
    assert line[|key| + 1 + (k - |key| - 1)] == value[k - |key| - 1];
  }

  /** A printed line is read by one `fgets`, whatever follows it. */
  lemma PrintedChunk(line: string, key: string, value: string, rest: string)
    requires KeyText(key) && FieldText(value) && Printed(line, key, value)
    ensures ChunkLen(line + rest) == |line|
  {
    var n := |line| - 1;
    forall k | 0 <= k < n ensures (line + rest)[k] != '\n' {
      if k > |key| { PrintedTail(line, key, value, k); }
    }
    IndexOfIs(line + rest, '\n');
    assert FirstAt(line + rest, '\n', n);
  }

  lemma PrintedIsText(line: string, key: string, value: string)
    requires KeyText(key) && FieldText(value) && Printed(line, key, value)
    ensures CStr(line) == line
  {
    forall k | 0 <= k < |line| ensures line[k] != NUL {
      if |key| < k < |line| - 1 { PrintedTail(line, key, value, k); }
    }
    assert line[..|line|] == line;
    StrLenIs(line, |line|);
  }

  /** Behind the value less its trailing space only space follows. */
  lemma PrintedTrails(line: string, key: string, value: string, n: nat)
    requires KeyText(key) && FieldText(value) && Printed(line, key, value) && Trails(value, n)
    ensures Trails(line, |key| + 1 + n)
  {
    var end := |key| + 1 + n;
    forall k | end <= k < |line| ensures IsSpace(line[k]) {
      if k < |line| - 1 { PrintedTail(line, key, value, k); }
    }
    if n > 0 { PrintedTail(line, key, value, end - 1); }
  }

  /** The trimmed line is the key, `=` and the value less trailing space. */
  lemma PrintedStrip(line: string, key: string, value: string)
    requires KeyText(key) && FieldText(value) && Printed(line, key, value)
    ensures var end := |key| + 1 + |RStrip(value)|;
            end <= |line| && Strip(CStr(line)) == line[..end]
  {
    PrintedIsText(line, key, value);
    var n := RStripCut(value);
    PrintedTrails(line, key, value, n);
    assert line[0] == key[0] && line[0..] == line;
    LStripIs(line, 0);
    RStripIs(line, |key| + 1 + n);
  }

  lemma TrimmedIsIdentity(s: string)
    requires s == "" || (!IsSpace(s[0]) && !IsSpace(s[|s| - 1]))
    ensures Strip(s) == s
  {
    LStripIs(s, 0);
    RStripIs(s, |s|);
    assert s[0..] == s && s[..|s|] == s;
  }

  lemma SettingOfText(text: string, key: string, value: string)
    requires KeyText(key) && |text| == |key| + 1 + |value| && text[|key|] == '='
    requires text[..|key|] == key && text[|key| + 1..] == value
    requires value == "" || (!IsSpace(value[0]) && !IsSpace(value[|value| - 1]))
    ensures SettingIn(text) == Some(Setting(key, value))
  {
    assert forall j :: 0 <= j < |key| ==> text[j] == key[j];
    IndexOfIs(text, '=');
    assert FirstAt(text, '=', |key|);
    TrimmedIsIdentity(key);
    TrimmedIsIdentity(value);
  }

  lemma PrintedHalves(line: string, key: string, value: string, n: nat)
    requires Printed(line, key, value) && n <= |value|
    ensures var text := line[..|key| + 1 + n];
            text[|key|] == '=' && text[..|key|] == key && text[|key| + 1..] == value[..n]
  {
    var text := line[..|key| + 1 + n];
    forall k | 0 <= k < |key| ensures text[k] == key[k] { assert text[k] == line[k]; }
    forall k | 0 <= k < n ensures text[|key| + 1..][k] == value[..n][k] {
      assert text[|key| + 1 + k] == line[|key| + 1 + k];
    }
  }

  /** A printed line sets its key to the value less trailing space. */
  lemma PrintedSetting(line: string, key: string, value: string)
    requires KeyText(key) && FieldText(value) && Printed(line, key, value)
    ensures SettingOf(line) == Some(Setting(key, RStrip(value)))
  {
    PrintedStrip(line, key, value);
    var n := RStripCut(value);
    PrintedHalves(line, key, value, n);
    SettingOfText(line[..|key| + 1 + n], key, value[..n]);
  }

  lemma ParsePrintedLine(c: FsConfig, key: string, value: string, rest: string)
    requires KeyText(key) && FieldText(value)
    ensures ParseLines(c, Chunks(Line(key, value) + rest)) ==
            ParseLines(Set(c, Setting(key, RStrip(value))), Chunks(rest))
  {
    var line := Line(key, value);
    LineIsPrinted(key, value);
    PrintedChunk(line, key, value, rest);
    PrintedSetting(line, key, value);
    ChunksBehind(line, rest);
  }

  lemma ChunksBehind(line: string, rest: string)
    requires line != "" && ChunkLen(line + rest) == |line|
    ensures Chunks(line + rest) == [line] + Chunks(rest)
  {
    assert (line + rest)[..|line|] == line && (line + rest)[|line|..] == rest;
  }

  lemma SwitchText(on: bool)
    ensures var v := if on then "on" else "off";
            FieldText(v) && RStrip(v) == v && (SameIgnoringCase(v, "on") <==> on)
  {
    var v := if on then "on" else "off";
    RStripIs(v, |v|);
    assert v[..|v|] == v;
  }

  lemma RStripKeepsText(s: string)
    requires FieldText(s)
    ensures FieldText(RStrip(s)) && RStrip(RStrip(s)) == RStrip(s)
    ensures s != "" ==> RStrip(s) != ""
  {
    var i := RStripCut(s);
    RStripIs(s[..i], i);
    assert s[..i][..i] == s[..i];
  }

  lemma AlarmTextIsField(c: FsConfig)
    requires WellParsed(c)
    ensures FieldText(AlarmText(c)) && AlarmText(c) != ""
  {
  }

  lemma Keys()
    ensures KeyText("MONITOR_SWITCH") && KeyText("NAME") && KeyText("PATH")
    ensures KeyText("OPERATIONS") && KeyText("ALARM_COMMAND")
  {
  }

  /** What each key sets. */
  lemma SetByKey(c: FsConfig, v: string)
    requires |v| < MAX_FIELD_LEN
    ensures Set(c, Setting("NAME", v)) == c.(name := v)
    ensures Set(c, Setting("PATH", v)) == c.(path := v)
    ensures Set(c, Setting("OPERATIONS", v)) == c.(operations := v)
    ensures Set(c, Setting("ALARM_COMMAND", v)) == c.(alarmCmd := v)
    ensures Set(c, Setting("MONITOR_SWITCH", v)) == c.(monitorSwitch := SameIgnoringCase(v, "on"))
  {
  }

  lemma ParsePrinted(c: FsConfig, start: FsConfig)
    requires WellParsed(c)
    ensures ParseLines(start, Chunks(Print(c))) == Norm(c).(id := start.id)
  {
    Keys();
    SwitchText(c.monitorSwitch);
    var sw := if c.monitorSwitch then "on" else "off";
    ParsePrintedLine(start, "MONITOR_SWITCH", sw, FourLines(c));
    SetByKey(start, sw);
    ParseFourPrinted(c, start.(monitorSwitch := c.monitorSwitch));
  }

  lemma ParseFourPrinted(c: FsConfig, start: FsConfig)
    requires WellParsed(c)
    ensures ParseLines(start, Chunks(FourLines(c))) == Norm(c).(id := start.id, monitorSwitch := start.monitorSwitch)
  {
    Keys();
    RStripKeepsText(c.name);
    RStripKeepsText(c.path);
    var c2 := start.(name := RStrip(c.name));
    ParsePrintedLine(start, "NAME", c.name, Line("PATH", c.path) + TwoLines(c));
    SetByKey(start, RStrip(c.name));
    ParsePrintedLine(c2, "PATH", c.path, TwoLines(c));
    SetByKey(c2, RStrip(c.path));
    ParseTwoPrinted(c, c2.(path := RStrip(c.path)));
  }

  lemma ParseTwoPrinted(c: FsConfig, start: FsConfig)
    requires WellParsed(c)
    ensures ParseLines(start, Chunks(TwoLines(c))) ==
            start.(operations := RStrip(c.operations), alarmCmd := RStrip(AlarmText(c)))
  {
    Keys();
    AlarmTextIsField(c);
    RStripKeepsText(c.operations);
    RStripKeepsText(AlarmText(c));
    var c4 := start.(operations := RStrip(c.operations));
    var last := Line("ALARM_COMMAND", AlarmText(c));
    ParsePrintedLine(start, "OPERATIONS", c.operations, last);
    SetByKey(start, RStrip(c.operations));
    assert last + "" == last;
    ParsePrintedLine(c4, "ALARM_COMMAND", AlarmText(c), "");
    SetByKey(c4, RStrip(AlarmText(c)));
  }

  /** Printing a usable config and parsing it gives its fields without trailing space,
      with an empty alarm replaced by "true", and the switch as it was. */
  lemma PrintedIsReadBack(c: FsConfig)
    requires WellParsed(c) && Usable(c)
    ensures ParseFile(Print(c), c.id) == Some(Norm(c)) && Norm(c).monitorSwitch == c.monitorSwitch
  {
    ParsePrinted(c, Default(c.id));
    RStripKeepsText(c.name);
    RStripKeepsText(c.path);
  }

  /** So it is for every config that a file was parsed to. */
  lemma PrintIsReadBack(content: string, id: i32)
    requires ParseFile(content, id).Some?
    ensures var c := ParseFile(content, id).value;
            ParseFile(Print(c), id) == Some(Norm(c))
  {
    ParseIsWellParsed(content, id);
    PrintedIsReadBack(ParseFile(content, id).value);
  }

  lemma NormIsStable(c: FsConfig)
    requires WellParsed(c)
    ensures WellParsed(Norm(c)) && Norm(Norm(c)) == Norm(c)
  {
    AlarmTextIsField(c);
    RStripKeepsText(c.name);
    RStripKeepsText(c.path);
    RStripKeepsText(c.operations);
    RStripKeepsText(AlarmText(c));
  }

  /** A second round changes nothing. */
  lemma SecondPrintChangesNothing(content: string, id: i32)
    requires ParseFile(content, id).Some?
    ensures var c := ParseFile(content, id).value;
            ParseFile(Print(Norm(c)), id) == Some(Norm(c))
  {
    var c := ParseFile(content, id).value;
    PrintIsReadBack(content, id);
    PrintIsReadBack(Print(c), id);
    ParseIsWellParsed(content, id);
    NormIsStable(c);
  }

  predicate NoTrailingSpace(s: string) { s != "" ==> !IsSpace(s[|s| - 1]) }

  lemma RStripIsIdentity(s: string)
    ensures RStrip(s) == s <==> NoTrailingSpace(s)
  {
    var i := RStripCut(s);
    assert s[..|s|] == s;
  }

  /** The round trip is exact when, and only when, no field was cut off at a space and an
      alarm is set. */
  lemma PrintIsExact(content: string, id: i32)
    requires ParseFile(content, id).Some?
    ensures var c := ParseFile(content, id).value;
            ParseFile(Print(c), id) == Some(c) <==>
              && c.alarmCmd != ""
              && NoTrailingSpace(c.name) && NoTrailingSpace(c.path)
              && NoTrailingSpace(c.operations) && NoTrailingSpace(c.alarmCmd)
  {
    var c := ParseFile(content, id).value;
    PrintIsReadBack(content, id);
    RStripIsIdentity(c.name);
    RStripIsIdentity(c.path);
    RStripIsIdentity(c.operations);
    RStripIsIdentity(c.alarmCmd);
    ParseIsWellParsed(content, id);
    AlarmTextIsField(c);
    RStripKeepsText(AlarmText(c));
  }
}
