/** A client's command on its way to a worker: the server joins option and identifiers
    with spaces (rpc.rs), and the worker cuts the text up again in place (proc.c, fs.c). */
module CommandCodec {
  import opened CStrings
  import opened Decimals
  import opened ArgvJoin
  import opened ProcWorker

  const MAX_MSG_SIZE: nat := 1024
  const FS_MAX_PARTS: nat := 3

  datatype ClientCommand =
    | PROC(opt: string, identifier: seq<string>)
    | FS(opt: string, identifier: seq<string>)
    | LIST(opt: string, listed: string)

  function SentIdentifier(cmd: ClientCommand): seq<string> { if cmd.LIST? then [] else cmd.identifier }

  predicate ValidOption(opt: string) { opt == "start" || opt == "stop" || opt == "list" }

  /** The text of a command, when the server accepts it. */
  method ValidateCommand(cmd: ClientCommand) returns (r: Option<string>)
    ensures r.Some? <==> !cmd.LIST? && cmd.opt in ["start", "stop", "list"]
    ensures r.Some? ==> r.value == Join([cmd.opt] + cmd.identifier)
  {
    match cmd {
      case PROC(opt, identifier) => r := OptionAndIdentifiers(opt, identifier);
      case FS(opt, identifier) => r := OptionAndIdentifiers(opt, identifier);
      case LIST(_, _) => return None;
    }
  }

  method OptionAndIdentifiers(opt: string, identifier: seq<string>) returns (r: Option<string>)
    ensures r.Some? <==> ValidOption(opt)
    ensures r.Some? ==> r.value == Join([opt] + identifier)
  {
    if !(opt == "start" || opt == "stop" || opt == "list") { return None; }
    var result := opt;
    if identifier != [] {
      result := result + " ";
      result := result + Join(identifier);
      JoinBehind(opt, identifier);
    } else {
      assert [opt] + identifier == [opt];
    }
    return Some(result);
  }

  lemma {:induction false} JoinBehind(first: string, parts: seq<string>)
    requires parts != []
    ensures Join([first] + parts) == first + " " + Join(parts)
  {
    var front := parts[..|parts| - 1];
    assert ([first] + parts)[..|parts|] == [first] + front;
    if front == [] {
      assert [first] + front == [first];
    } else {
      JoinBehind(first, front);
    }
  }

  // ----- the words of a text

  function WordLen(s: string): (n: nat)
    ensures n <= |s| && (forall k :: 0 <= k < n ==> s[k] != ' ') && (n < |s| ==> s[n] == ' ')
  {
    if s == "" || s[0] == ' ' then 0 else 1 + WordLen(s[1..])
  }

  /** The non-empty stretches between spaces. */
  function Words(s: string): seq<string> {
    if s == "" then []
    else if s[0] == ' ' then Words(s[1..])
    else [s[..WordLen(s)]] + Words(s[WordLen(s)..])
  }

  lemma WordLenIs(s: string, n: nat)
    requires n <= |s| && (forall k :: 0 <= k < n ==> s[k] != ' ') && (n < |s| ==> s[n] == ' ')
    ensures WordLen(s) == n
  {
  }

  lemma FirstWordOfBoth(a: string, b: string, n: nat)
    requires n == WordLen(a)
    ensures var s := a + " " + b; WordLen(s) == n && s[..n] == a[..n] && s[n..] == a[n..] + " " + b
  {
    var s := a + " " + b;
    assert forall k :: 0 <= k < |a| ==> s[k] == a[k];
    assert s[|a|] == ' ';
    WordLenIs(s, n);
  }

  /** A space cuts a text into words that do not cross it. */
  lemma {:induction false} WordsOfBoth(a: string, b: string)
    ensures Words(a + " " + b) == Words(a) + Words(b)
    decreases |a|
  {
    var s := a + " " + b;
    if a == "" {
      assert s[1..] == b;
    } else if a[0] == ' ' {
      assert s[1..] == a[1..] + " " + b;
      WordsOfBoth(a[1..], b);
    } else {
      var n := WordLen(a);
      FirstWordOfBoth(a, b, n);
      WordsOfBoth(a[n..], b);
    }
  }

  lemma WordsOfWord(s: string)
    requires s != "" && forall k :: 0 <= k < |s| ==> s[k] != ' '
    ensures Words(s) == [s]
  {
    WordLenIs(s, |s|);
    assert s[..|s|] == s && s[|s|..] == "";
  }

  lemma {:induction false} WordCount(s: string)
    ensures 2 * |Words(s)| <= |s| + 1
    decreases |s|
  {
    if s != "" {
      if s[0] == ' ' {
        WordCount(s[1..]);
      } else {
        var n := WordLen(s);
        if n < |s| {
          assert s[n..][0] == ' ';
          assert Words(s[n..]) == Words(s[n..][1..]);
          WordCount(s[n..][1..]);
        }
      }
    }
  }

  function AllWords(parts: seq<string>): seq<string> {
    if parts == [] then [] else AllWords(parts[..|parts| - 1]) + Words(parts[|parts| - 1])
  }

  /** Joining and cutting gives the words of the parts, in order. */
  lemma {:induction false} WordsOfJoin(parts: seq<string>)
    ensures Words(Join(parts)) == AllWords(parts)
  {
    if |parts| == 1 {
      assert AllWords(parts[..0]) == [];
    } else if |parts| > 1 {
      WordsOfJoin(parts[..|parts| - 1]);
      WordsOfBoth(Join(parts[..|parts| - 1]), parts[|parts| - 1]);
    }
  }

  predicate IsWord(s: string) { s != "" && ' ' !in s }

  lemma {:induction false} AllWordsOfWords(parts: seq<string>)
    requires forall i :: 0 <= i < |parts| ==> IsWord(parts[i])
    ensures AllWords(parts) == parts
  {
    if parts != [] {
      AllWordsOfWords(parts[..|parts| - 1]);
      WordsOfWord(parts[|parts| - 1]);
    }
  }

  // ----- cutting in place

  /** `strspn`: the first position that holds no space. Skipping spaces loses no word. */
  method Strspn(buf: array<char>, start: nat, ghost end: nat) returns (i: nat)
    requires start <= end < buf.Length && buf[end] == NUL
    ensures start <= i <= end && buf[i] != ' ' && forall k :: start <= k < i ==> buf[k] == ' '
    ensures Words(buf[..][start..end]) == Words(buf[..][i..end])
  {
    i := start;
    while buf[i] == ' '
      invariant start <= i <= end && forall k :: start <= k < i ==> buf[k] == ' '
      invariant Words(buf[..][start..end]) == Words(buf[..][i..end])
      decreases end - i
    {
      assert buf[..][i..end][1..] == buf[..][i + 1..end];
      i := i + 1;
    }
  }

  /** `strcspn`: the end of the word at `i`. */
  method Strcspn(buf: array<char>, i: nat, ghost end: nat) returns (j: nat)
    requires i <= end < buf.Length && buf[end] == NUL
    ensures i <= j <= end && (buf[j] == ' ' || buf[j] == NUL)
    ensures forall k :: i <= k < j ==> buf[k] != ' ' && buf[k] != NUL
  {
    j := i;
    while buf[j] != ' ' && buf[j] != NUL
      invariant i <= j <= end
      invariant forall k :: i <= k < j ==> buf[k] != ' ' && buf[k] != NUL
      decreases end - j
    {
      j := j + 1;
    }
  }

  lemma FirstWord(s: seq<char>, i: nat, j: nat, end: nat)
    requires i < j <= end <= |s| && (forall k :: i <= k < j ==> s[k] != ' ') && (j < end ==> s[j] == ' ')
    ensures Words(s[i..end]) == [s[i..j]] + Words(s[j..end])
    ensures j < end ==> Words(s[j..end]) == Words(s[j + 1..end])
  {
    var rest := s[i..end];
    WordLenIs(rest, j - i);
    assert rest[..j - i] == s[i..j] && rest[j - i..] == s[j..end];
    if j < end { assert s[j..end][1..] == s[j + 1..end]; }
  }

  /** The words of the text at `start` are the word at `tok` and those of the text at `next`. */
  ghost predicate CutsWord(before: seq<char>, after: seq<char>, start: nat, end: nat, tok: nat, len: nat, next: nat) {
    && start <= tok && tok + len <= next <= end < |before| == |after|
    && StringAt(after, tok, len) && StringAt(after, next, end - next)
    && Words(before[start..end]) == [after[tok..tok + len]] + Words(after[next..end])
  }

  /** Nothing changes but spaces at or behind `start`. */
  ghost predicate OnlySpacesCut(before: seq<char>, after: seq<char>, start: nat) {
    |after| == |before| && forall k :: 0 <= k < |before| && !(start <= k && before[k] == ' ') ==> after[k] == before[k]
  }

  /** `strtok` in a buffer whose text at `start` ends at `end`: the first word is ended by
      a NUL written over the space behind it, and the search will resume at `next`. */
  method Strtok(buf: array<char>, start: nat, ghost end: nat)
    returns (tok: Option<nat>, ghost len: nat, next: nat)
    requires start <= end && StringAt(buf[..], start, end - start)
    modifies buf
    ensures OnlySpacesCut(old(buf[..]), buf[..], start)
    ensures tok.None? ==> Words(old(buf[..])[start..end]) == [] && buf[..] == old(buf[..]) && next == start
    ensures tok.Some? ==> CutsWord(old(buf[..]), buf[..], start, end, tok.value, len, next)
  {
    var i := Strspn(buf, start, end);
    ghost var s := buf[..];
    if buf[i] == NUL {
      NoWordLeft(s, start, end, i);
      return None, 0, start;
    }
    var j := Strcspn(buf, i, end);
    FirstWord(s, i, j, end);
    if buf[j] == NUL {
      EndsWithWord(s, start, end, i, j);
      return Some(i), j - i, j;
    }
    PutNul(buf, j);
    CutAt(s, buf[..], start, end, i, j);
    return Some(i), j - i, j + 1;
  }

  lemma NoWordLeft(s: seq<char>, start: nat, end: nat, i: nat)
    requires start <= i <= end && StringAt(s, start, end - start) && s[i] == NUL
    requires Words(s[start..end]) == Words(s[i..end])
    ensures Words(s[start..end]) == []
  {
    assert i == end && s[i..end] == [];
  }

  lemma CutAt(s: seq<char>, s': seq<char>, start: nat, end: nat, i: nat, j: nat)
    requires start <= i < j < end && StringAt(s, start, end - start)
    requires s' == s[j := NUL]
    requires Words(s[start..end]) == [s[i..j]] + Words(s[j + 1..end])
    ensures CutsWord(s, s', start, end, i, j - i, j + 1)
    ensures s[j] == ' ' ==> OnlySpacesCut(s, s', start)
  {
    assert s'[i..j] == s[i..j] && s'[j + 1..end] == s[j + 1..end];
  }

  lemma EndsWithWord(s: seq<char>, start: nat, end: nat, i: nat, j: nat)
    requires start <= i < j <= end && StringAt(s, start, end - start) && s[j] == NUL
    requires Words(s[start..end]) == [s[i..j]] + Words(s[j..end])
    ensures CutsWord(s, s, start, end, i, j - i, j)
  {
  }

  // ----- all tokens

  /** The word stands at `tok` as a C string that ends no later than `next`. */
  ghost predicate Token(s: seq<char>, tok: nat, word: string, next: nat) {
    tok + |word| <= next && StringAt(s, tok, |word|) && s[tok..tok + |word|] == word
  }

  /** The tokens are the first words, and the text at `next` holds the others. */
  ghost predicate CutOff(s: seq<char>, tokens: seq<nat>, words: seq<string>, next: nat, end: nat) {
    && next <= end && StringAt(s, next, end - next) && |tokens| <= |words|
    && (forall k :: 0 <= k < |tokens| ==> Token(s, tokens[k], words[k], next))
    && Words(s[next..end]) == words[|tokens|..]
  }

  /** One more word is cut off: earlier tokens lie before it and stay. */
  lemma CutOneMore(s: seq<char>, s': seq<char>, tokens: seq<nat>, words: seq<string>,
                   next: nat, end: nat, tok: nat, len: nat, next': nat)
    requires CutOff(s, tokens, words, next, end) && CutsWord(s, s', next, end, tok, len, next')
    requires OnlySpacesCut(s, s', next)
    ensures CutOff(s', tokens + [tok], words, next', end)
  {
    var n := |tokens|;
    assert words[n..] == [s'[tok..tok + len]] + Words(s'[next'..end]);
    assert words[n] == s'[tok..tok + len] && words[n + 1..] == words[n..][1..];
    forall k | 0 <= k < n ensures Token(s', tokens[k], words[k], next') {
      assert s'[tokens[k]..tokens[k] + |words[k]|] == s[tokens[k]..tokens[k] + |words[k]|];
    }
  }

  /** The splitting loop of both workers, which stops at `limit` tokens: the token strings
      left in the buffer are the words of the text it held. */
  method SplitSpace(buf: array<char>, limit: nat) returns (tokens: seq<nat>)
    requires StrLen(buf[..]) < buf.Length
    modifies buf
    ensures var words := Words(old(CStr(buf[..])));
            && |tokens| == (if |words| < limit then |words| else limit)
            && forall k :: 0 <= k < |tokens| ==> tokens[k] <= buf.Length && TextAt(buf[..], tokens[k]) == words[k]
  {
    ghost var end := StrLen(buf[..]);
    ghost var words := Words(CStr(buf[..]));
    assert buf[0..end] == CStr(buf[..]) && forall k :: 0 <= k < end ==> buf[..end][k] != NUL;
    tokens := [];
    var next: nat := 0;
    while |tokens| < limit
      invariant |tokens| <= limit && CutOff(buf[..], tokens, words, next, end)
      decreases limit - |tokens|
    {
      ghost var s := buf[..];
      var tok: Option<nat>;
      ghost var len: nat;
      ghost var from := next;
      tok, len, next := Strtok(buf, next, end);
      if tok.None? { break; }
      CutOneMore(s, buf[..], tokens, words, from, end, tok.value, len, next);
      tokens := tokens + [tok.value];
    }
    forall k | 0 <= k < |tokens| ensures tokens[k] <= buf.Length && TextAt(buf[..], tokens[k]) == words[k] {
      assert Token(buf[..], tokens[k], words[k], next);
      TextOfString(buf[..], tokens[k], |words[k]|);
    }
  }

  method ReadTokens(buf: seq<char>, starts: seq<nat>, ghost words: seq<string>) returns (tokens: seq<string>)
    requires |starts| <= |words|
    requires forall k :: 0 <= k < |starts| ==> starts[k] <= |buf| && TextAt(buf, starts[k]) == words[k]
    ensures tokens == words[..|starts|]
  {
    tokens := [];
    for i := 0 to |starts|
      invariant tokens == words[..i]
    {
      tokens := tokens + [TextAt(buf, starts[i])];
    }
  }

  // ----- from the client to the worker

  /** At most `limit` of the words. */
  function Cut(words: seq<string>, limit: nat): (cut: seq<string>)
    ensures |cut| <= limit && (|words| <= limit ==> cut == words)
  {
    if |words| < limit then words else words[..limit]
  }

  /** The message as a worker receives it: in a zeroed buffer, cut into at most `limit`
      tokens. A NUL in the text ends it. */
  method ReceiveCommand(text: string, limit: nat) returns (tokens: seq<string>)
    requires |text| < MAX_MSG_SIZE
    ensures tokens == Cut(Words(CStr(text)), limit)
  {
    var buf := new char[MAX_MSG_SIZE](i => if 0 <= i < |text| then text[i] else NUL);
    BufferText(buf[..], text);
    var starts := SplitSpace(buf, limit);
    tokens := ReadTokens(buf[..], starts, Words(CStr(text)));
  }

  lemma BufferText(buf: seq<char>, text: string)
    requires |text| < |buf| && forall k :: 0 <= k < |buf| ==> buf[k] == if k < |text| then text[k] else NUL
    ensures StrLen(buf) == StrLen(text) && CStr(buf) == CStr(text)
  {
    var n := StrLen(text);
    assert forall k :: 0 <= k < n ==> buf[k] == text[k] == text[..n][k];
    assert buf[..n] == text[..n];
    StrLenIs(buf, n);
  }

  /** No message has as many words as the proc worker keeps room for. */
  lemma TokenLimitNeverBinds(text: string)
    requires |text| < MAX_MSG_SIZE
    ensures |Words(text)| < MAX_MSG_SIZE - 1
  {
    WordCount(text);
  }

  lemma {:induction false} AllWordsBehind(first: string, parts: seq<string>)
    ensures AllWords([first] + parts) == Words(first) + AllWords(parts)
  {
    if parts == [] {
      assert ([first] + parts)[..0] == [] && AllWords([]) == [];
    } else {
      assert ([first] + parts)[..|parts|] == [first] + parts[..|parts| - 1];
      AllWordsBehind(first, parts[..|parts| - 1]);
    }
  }

  lemma OptionIsWord(opt: string)
    requires ValidOption(opt)
    ensures IsWord(opt)
  {
  }

  /** The tokens of a command are its option and the words of its identifiers: the
      identifiers themselves when they are words. */
  lemma TokensOfCommand(opt: string, identifier: seq<string>)
    requires IsWord(opt)
    ensures Words(Join([opt] + identifier)) == [opt] + AllWords(identifier)
    ensures (forall i :: 0 <= i < |identifier| ==> IsWord(identifier[i])) ==>
              Words(Join([opt] + identifier)) == [opt] + identifier
  {
    WordsOfJoin([opt] + identifier);
    AllWordsBehind(opt, identifier);
    WordsOfWord(opt);
    if forall i :: 0 <= i < |identifier| ==> IsWord(identifier[i]) { AllWordsOfWords(identifier); }
  }

  /** A command from the client to the tokens in the worker: what the server accepts and
      does not find too large arrives as the words before its first NUL: all of them, the
      option and the words of the identifiers, when it holds none. */
  method SendCommand(cmd: ClientCommand) returns (tokens: Option<seq<string>>)
    requires |Join([cmd.opt] + SentIdentifier(cmd))| != MAX_MSG_SIZE
    ensures tokens.Some? <==>
              !cmd.LIST? && ValidOption(cmd.opt) && |Join([cmd.opt] + SentIdentifier(cmd))| < MAX_MSG_SIZE
    ensures tokens.Some? ==> tokens.value == Words(CStr(Join([cmd.opt] + cmd.identifier)))
    ensures tokens.Some? && NoNul(Join([cmd.opt] + cmd.identifier)) ==>
              tokens.value == [cmd.opt] + AllWords(cmd.identifier)
  {
    var text := ValidateCommand(cmd);
    if text.None? || |text.value| > MAX_MSG_SIZE { return None; }
    TokenLimitNeverBinds(CStr(text.value));
    OptionIsWord(cmd.opt);
    TokensOfCommand(cmd.opt, cmd.identifier);
    if NoNul(text.value) {
      assert text.value[..|text.value|] == text.value;
      StrLenIs(text.value, |text.value|);
    }
    var received := ReceiveCommand(text.value, MAX_MSG_SIZE - 1);
    return Some(received);
  }

  /** Every accepted command reaches the branch of its own option. */
  lemma CommandReachesItsBranch(opt: string, identifier: seq<string>)
    requires ValidOption(opt)
    ensures var cmd, args := ParseCommand(Words(Join([opt] + identifier))), AllWords(identifier);
            && (opt == "start" <==> cmd.Start?)
            && (opt == "stop" <==> cmd.Stop?)
            && (cmd.ListConfigs? <==> opt == "list" && (args == [] || args[0] == "config"))
            && (cmd.ListTracked? <==> opt == "list" && args != [] && args[0] == "tracked")
  {
    OptionIsWord(opt);
    TokensOfCommand(opt, identifier);
    var tokens := Words(Join([opt] + identifier));
    assert tokens[0] == opt && tokens[1..] == AllWords(identifier);
  }

  /** A text on the queue, and its words. */
  lemma TextAndWords()
    ensures Join(["start", "7"]) == "start 7" && Words("start 7") == ["start", "7"]
  {
    assert ["start", "7"][..1] == ["start"] && "start 7" == "start" + " " + "7";
    WordsOfBoth("start", "7");
    WordsOfWord("start");
    WordsOfWord("7");
  }

  lemma IdCommandTokens(opt: string, id: nat)
    requires ValidOption(opt)
    ensures Words(Join([opt, Decimal(id)])) == [opt, Decimal(id)]
  {
    ValueOfDecimal(id);
    assert IsWord(Decimal(id));
    TokensOfCommand(opt, [Decimal(id)]);
    assert [opt] + [Decimal(id)] == [opt, Decimal(id)];
  }

  /** Starting the id that a listing printed asks the worker for that very id. */
  lemma ListedIdIsStarted(id: nat)
    requires id <= ULONG_MAX
    ensures ParseCommand(Words(Join(["start", Decimal(id)]))) == Start(Some(id))
    ensures ParseCommand(Words(Join(["stop", Decimal(id)]))) == Stop(Some(id))
  {
    IdCommandTokens("start", id);
    IdCommandTokens("stop", id);
    ListedIdIsReadBack(id);
  }

  /** The tokens of a text as the process worker receives it. */
  function TokensOf(text: string): seq<string> { Cut(Words(CStr(text)), MAX_MSG_SIZE - 1) }

  lemma {:induction false} DecimalHasNoNul(opt: string, id: nat)
    requires ValidOption(opt)
    ensures NoNul(Join([opt, Decimal(id)]))
  {
    ValueOfDecimal(id);
    JoinHasNoNul([opt, Decimal(id)]);
  }

  /** A start or stop of a listed id, from the text the client sends to the state of the
      process worker. */
  lemma SwitchEndToEnd(st: WorkerState, id: nat, on: bool, now: int)
    requires id <= ULONG_MAX
    ensures var text := Join([if on then "start" else "stop", Decimal(id)]);
            SwitchedBy(st, CommandStep(st, ParseCommand(TokensOf(text)), now), Some(id), on, now)
  {
    var opt := if on then "start" else "stop";
    var text := Join([opt, Decimal(id)]);
    DecimalHasNoNul(opt, id);
    assert text[..|text|] == text;
    StrLenIs(text, |text|);
    IdCommandTokens(opt, id);
    ListedIdIsStarted(id);
    SwitchIsExact(st, Some(id), on, now);
  }
}
