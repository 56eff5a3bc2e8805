/** What a config file says (fs.c), read off its text: which pieces it is read in, which of
    them are settings and of what, which fields they give, and which files are loaded. */
module FsFileText {
  import opened CStrings
  import opened FsConfigFile
  import opened FsStore
  import opened MachineWords

  // ----- pieces

  function Concat(parts: seq<string>): string { if parts == [] then "" else parts[0] + Concat(parts[1..]) }

  /** A piece a file is read in: at most 511 characters, a newline at most at its end; and
      it is shorter without one only at the end of the file. */
  predicate IsPiece(piece: string, last: bool) {
    && 1 <= |piece| <= 511 && (forall k :: 0 <= k < |piece| - 1 ==> piece[k] != '\n')
    && (piece[|piece| - 1] == '\n' || |piece| == 511 || last)
  }

  lemma FirstPiece(content: string)
    requires content != ""
    ensures IsPiece(content[..ChunkLen(content)], ChunkLen(content) == |content|)
  {
    IndexOfIs(content, '\n');
    var n := ChunkLen(content);
    var piece := content[..n];
    if '\n' in content {
      var k := IndexOf(content, '\n').value;
      assert n <= k + 1;
      if n == k + 1 { assert piece[n - 1] == content[k]; }
    }
    forall j | 0 <= j < n - 1 ensures piece[j] != '\n' { assert piece[j] == content[j]; }
  }

  /** The pieces are the whole file, in order. */
  lemma {:induction false} PiecesAreTheFile(content: string)
    ensures Concat(Chunks(content)) == content
    ensures forall i :: 0 <= i < |Chunks(content)| ==> IsPiece(Chunks(content)[i], i == |Chunks(content)| - 1)
    decreases |content|
  {
    if content != "" {
      var n := ChunkLen(content);
      FirstPiece(content);
      PiecesAreTheFile(content[n..]);
      assert content[..n] + content[n..] == content;
      var rest := Chunks(content[n..]);
      forall i | 0 <= i < |rest| + 1
        ensures IsPiece(([content[..n]] + rest)[i], i == |rest|)
      {
        if i > 0 { assert ([content[..n]] + rest)[i] == rest[i - 1]; } else { assert rest == [] <==> n == |content|; }
      }
      assert Chunks(content) == [content[..n]] + rest;
    }
  }

  // ----- settings

  predicate AllSpace(s: string) { forall k :: 0 <= k < |s| ==> IsSpace(s[k]) }

  /** A text without space at either end. */
  predicate Trimmed(s: string) { s == "" || (!IsSpace(s[0]) && !IsSpace(s[|s| - 1])) }

  lemma StripOfPadded(a: string, t: string, d: string)
    requires AllSpace(a) && AllSpace(d) && Trimmed(t)
    ensures Strip(a + t + d) == t
  {
    var s := a + t + d;
    if t == "" {
      LStripIs(s, |s|);
    } else {
      assert s[|a|] == t[0];
      LStripIs(s, |a|);
      var u := s[|a|..];
      assert u == t + d && u[|t| - 1] == t[|t| - 1];
      RStripIs(u, |t|);
    }
  }

  predicate IsKey(key: string) { Trimmed(key) && key != "" && key[0] != '#' && '=' !in key && NoNul(key) }

  lemma CutAtEquals(left: string, right: string)
    requires '=' !in left && left != "" && left[0] != '#'
    ensures SettingIn(left + "=" + right) == Some(Setting(Strip(left), Strip(right)))
  {
    var text := left + "=" + right;
    assert text[0] == left[0] && text[|left|] == '=';
    assert text[..|left|] == left && text[|left| + 1..] == right;
    IndexOfIs(text, '=');
    assert FirstAt(text, '=', |left|);
  }

  /** The text between a key and a value: space, `=` and space. */
  lemma TrimmedSetting(key: string, b: string, c: string, value: string)
    requires IsKey(key) && Trimmed(value) && AllSpace(b) && AllSpace(c)
    ensures SettingIn((key + b) + "=" + (c + value)) == Some(Setting(key, value))
  {
    assert "" + key + b == key + b && c + value + "" == c + value;
    StripOfPadded("", key, b);
    StripOfPadded(c, value, "");
    assert (key + b)[0] == key[0];
    CutAtEquals(key + b, c + value);
  }

  lemma TextOfLine(s: string)
    requires NoNul(s)
    ensures CStr(s) == s
  {
    assert s[..|s|] == s;
    StrLenIs(s, |s|);
  }

  /** A line with space, a key, space, `=`, space, a value and space sets the key to the
      value, both without the space; the key is not empty, and no comment. */
  lemma LineIsSetting(a: string, key: string, b: string, c: string, value: string, d: string)
    requires AllSpace(a) && AllSpace(b) && AllSpace(c) && AllSpace(d)
    requires IsKey(key) && Trimmed(value) && NoNul(value)
    ensures SettingOf(a + ((key + b) + "=" + (c + value)) + d) == Some(Setting(key, value))
  {
    var t := (key + b) + "=" + (c + value);
    TextOfLine(a + t + d);
    assert t[0] == key[0];
    if value == "" {
      var t' := (key + b) + "=" + ("" + value);
      assert t' == key + b + "=" && t'[0] == key[0] && t'[|t'| - 1] == '=';
      assert a + t + d == a + t' + (c + d);
      StripOfPadded(a, t', c + d);
      TrimmedSetting(key, b, "", value);
    } else {
      assert t[|t| - 1] == value[|value| - 1];
      StripOfPadded(a, t, d);
      TrimmedSetting(key, b, c, value);
    }
  }

  /** The first character of a text that is no space is `#`. */
  ghost predicate IsComment(s: string) {
    exists i :: 0 <= i < |s| && s[i] == '#' && forall k :: 0 <= k < i ==> IsSpace(s[k])
  }

  /** Any other line sets nothing only if it is a comment or holds no `=`; and these set
      nothing. */
  lemma NoSetting(chunk: string)
    ensures SettingOf(chunk).None? <==> '=' !in CStr(chunk) || IsComment(CStr(chunk))
  {
    var s := CStr(chunk);
    var i, j := StripCut(s);
    var line := s[i..j];
    IndexOfIs(line, '=');
    if '=' in s {
      var k :| 0 <= k < |s| && s[k] == '=';
      assert i <= k < j && line[k - i] == '=';
      assert line[0] == s[i];
    }
    if '=' in line { assert '=' in s; }
  }

  // ----- fields

  predicate SaysOn(v: string) { v in ["on", "On", "oN", "ON"] }

  lemma OnInAnyCase(v: string)
    ensures SameIgnoringCase(v, "on") <==> SaysOn(v)
  {
    if |v| == 2 { assert v == [v[0], v[1]]; }
  }

  /** A field as the last setting of its key leaves it: 255 characters of the value, or the
      default. */
  predicate FieldIs(field: string, last: Option<string>, default: string) {
    match last
    case None => field == default
    case Some(v) => field == if |v| <= 255 then v else v[..255]
  }

  predicate SetsText(last: Option<string>) { last.Some? && last.value != "" }

  /** A file gives a config exactly when its last NAME and its last PATH are not empty. Its
      switch is on exactly when the last MONITOR_SWITCH says so; it watches writes, deletes,
      renames and chmods, and has no alarm, unless the file says otherwise. */
  lemma FileGivesConfig(content: string, id: i32)
    ensures var chunks, c := Chunks(content), ParseFile(content, id);
            && (c.Some? <==> SetsText(LastSetting(chunks, "NAME")) && SetsText(LastSetting(chunks, "PATH")))
            && (c.Some? ==>
                  && c.value.id == id
                  && FieldIs(c.value.name, LastSetting(chunks, "NAME"), "")
                  && FieldIs(c.value.path, LastSetting(chunks, "PATH"), "")
                  && FieldIs(c.value.operations, LastSetting(chunks, "OPERATIONS"), "write,delete,rename,chmod")
                  && FieldIs(c.value.alarmCmd, LastSetting(chunks, "ALARM_COMMAND"), "")
                  && (c.value.monitorSwitch <==>
                        var last := LastSetting(chunks, "MONITOR_SWITCH"); last.Some? && SaysOn(last.value)))
  {
    var chunks := Chunks(content);
    LastSettingWins(Default(id), chunks);
    match LastSetting(chunks, "MONITOR_SWITCH") {
      case None =>
      case Some(v) => OnInAnyCase(v);
    }
  }

  /** The last setting of a key: piece `i` sets it, and none behind does. */
  lemma {:induction false} LastSettingIs(chunks: seq<string>, key: string, i: nat, value: string)
    requires i < |chunks| && SettingOf(chunks[i]) == Some(Setting(key, value))
    requires forall k :: i < k < |chunks| && SettingOf(chunks[k]).Some? ==> SettingOf(chunks[k]).value.key != key
    ensures LastSetting(chunks, key) == Some(value)
    decreases |chunks|
  {
    if i > 0 {
      LastSettingIs(chunks[1..], key, i - 1, value);
    } else {
      NeverSet(chunks[1..], key);
    }
  }

  lemma {:induction false} NeverSet(chunks: seq<string>, key: string)
    requires forall k :: 0 <= k < |chunks| && SettingOf(chunks[k]).Some? ==> SettingOf(chunks[k]).value.key != key
    ensures LastSetting(chunks, key) == None
    decreases |chunks|
  {
    if chunks != [] { NeverSet(chunks[1..], key); }
  }

  // ----- the directory

  /** The entry is a regular file, not hidden, whose name ends in `.conf`. */
  predicate IsConf(e: DirEntry) {
    && e.regular && |e.name| >= 5 && e.name[0] != '.'
    && e.name[|e.name| - 5..] == ".conf"
  }

  /** The configs that the files of a directory give, however many. */
  function Given(dir: seq<DirEntry>): seq<FsConfig> {
    if dir == [] then []
    else
      var e := dir[|dir| - 1];
      Given(dir[..|dir| - 1]) +
      if IsConf(e) && ParseFile(e.content, e.id).Some? then [ParseFile(e.content, e.id).value] else []
  }

  /** The configs loaded are the first 128 that the config files give, in directory order. */
  lemma {:induction false} LoadIsTheFirst128(dir: seq<DirEntry>)
    ensures Load(dir) == if |Given(dir)| <= 128 then Given(dir) else Given(dir)[..128]
  {
    if dir != [] {
      var e := dir[|dir| - 1];
      LoadIsTheFirst128(dir[..|dir| - 1]);
      ConfFiles(e);
    }
  }

  lemma ConfFiles(e: DirEntry)
    ensures IsConfigFile(e) <==> IsConf(e)
  {
  }
}
