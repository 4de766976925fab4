/**
 * The nano console on values: a line editor over a 128-byte buffer, the split of a line into arguments,
 * and the command list.  Echoing is not part of this model.
 */
module NanoConsole {
  import opened Bytes
  import opened Text

  const SIZE := 128 // NC_READ_BUF
  const BACKSPACE := 8 as char
  const DELETE := 127 as char

  // ---------- a line and its tokens ----------

  /** strlen, for text with a NUL in it. */
  function FirstNul(s: string): (k: nat)
    requires NUL in s
    ensures k < |s| && s[k] == NUL && NUL !in s[..k]
  {
    if s[0] == NUL then 0 else 1 + FirstNul(s[1..])
  }

  /** The C strings that lie one after the other in a buffer. */
  function Tokens(s: string): seq<string> {
    if NUL !in s then [] else [s[..FirstNul(s)]] + Tokens(s[FirstNul(s) + 1..])
  }

  function Join(ts: seq<string>): string {
    if ts == [] then "" else ts[0] + [NUL] + Join(ts[1..])
  }

  predicate Closed(s: string) { s == "" || s[|s| - 1] == NUL }

  lemma CutAt(s: string, k: nat)
    requires k < |s| && s[k] == NUL && Closed(s)
    ensures s == s[..k] + [NUL] + s[k + 1..] && Closed(s[k + 1..])
  {
  }

  lemma NulInClosed(s: string)
    requires s != "" && Closed(s)
    ensures NUL in s
  {
    assert s[|s| - 1] in s;
  }

  /** The tokens are C strings, and each with its NUL they make up the whole line: nothing is lost. */
  lemma {:induction false} TokensAreTheLine(s: string)
    requires Closed(s)
    ensures Join(Tokens(s)) == s && forall t <- Tokens(s) :: NUL !in t
    decreases |s|
  {
    if s != "" {
      NulInClosed(s);
      hide FirstNul, Closed;
      CutAt(s, FirstNul(s));
      TokensAreTheLine(s[FirstNul(s) + 1..]);
      assert Tokens(s)[1..] == Tokens(s[FirstNul(s) + 1..]);
    }
  }

  /** Nor is there any other way to read the line. */
  lemma {:induction false} LineOfTokens(ts: seq<string>)
    requires forall t <- ts :: NUL !in t
    ensures Tokens(Join(ts)) == ts && Closed(Join(ts))
    decreases |ts|
  {
    if ts != [] {
      var s, k := Join(ts), |ts[0]|;
      assert s[k] == NUL && s[..k] == ts[0];
      FirstNulIs(s, k);
      assert s[k + 1..] == Join(ts[1..]);
      LineOfTokens(ts[1..]);
    }
  }

  lemma {:induction false} FirstNulIs(s: string, k: nat)
    requires k < |s| && s[k] == NUL && NUL !in s[..k]
    ensures NUL in s && FirstNul(s) == k
    decreases k
  {
    assert s[k] in s;
    if k > 0 {
      assert s[..k][0] == s[0] && s[1..][..k - 1] == s[..k][1..];
      FirstNulIs(s[1..], k - 1);
    }
  }

  // ---------- commands ----------

  datatype Command = Command(name: string, func: nat)

  datatype Call = Call(func: nat, argv: seq<string>)

  /** get_cmd */
  function Lookup(cmds: seq<Command>, name: string): Option<Command> {
    if cmds == [] then None
    else if cmds[0].name == name then Some(cmds[0])
    else Lookup(cmds[1..], name)
  }

  /** A command is found exactly if one of that name is listed, and then it is the first such. */
  lemma {:induction false} LookupFindsFirst(cmds: seq<Command>, name: string)
    ensures match Lookup(cmds, name)
            case None => forall c <- cmds :: c.name != name
            case Some(c) => exists k | 0 <= k < |cmds| ::
                              cmds[k] == c && c.name == name && forall j | 0 <= j < k :: cmds[j].name != name
  {
    if cmds != [] && cmds[0].name != name {
      LookupFindsFirst(cmds[1..], name);
      match Lookup(cmds[1..], name)
      case None =>
      case Some(c) =>
        var k :| 0 <= k < |cmds| - 1 && cmds[1..][k] == c && forall j | 0 <= j < k :: cmds[1..][j].name != name;
        forall j | 0 <= j < k + 1 ensures cmds[j].name != name {
          if j > 0 { assert cmds[1..][j - 1].name != name; }
        }
        assert cmds[k + 1] == c;
    }
  }

  /** What Enter does with a closed line: `memory` is how many allocations would succeed. */
  function Runs(cmds: seq<Command>, line: string, memory: nat): seq<Call>
    requires line != "" && Closed(line)
  {
    NulInClosed(line);
    match Lookup(cmds, line[..FirstNul(line)])
    case None => []
    case Some(c) => if |Tokens(line)| < memory then [Call(c.func, Tokens(line))] else []
  }

  // ---------- the buffer and the pure editor ----------

  datatype Key = Key(c: char, memory: nat)

  datatype State = State(buf: string, num: nat, calls: seq<Call>)

  predicate Sound(s: State) { |s.buf| == SIZE && s.num < SIZE }

  function Put(s: State, c: char): State
    requires Sound(s) && s.num < SIZE - 1
  {
    s.(buf := s.buf[s.num := c], num := s.num + 1)
  }

  /** One round of nc_thread_entry, with whatever `malloc` left in the buffer. */
  function Press(cmds: seq<Command>, s: State, k: Key): (t: State)
    requires Sound(s)
    ensures Sound(t)
  {
    if s.num >= SIZE - 1 then s.(num := 0)
    else if k.c as int >= 128 then s
    else if k.c == '\r' || k.c == '\n' then
      if s.num == 0 then s else
      var t := if s.buf[s.num - 1] != NUL then Put(s, NUL) else s;
      t.(num := 0, calls := t.calls + Runs(cmds, t.buf[..t.num], k.memory))
    else if k.c == ' ' then
      if s.num > 0 && s.buf[s.num] != ' ' then Put(s, NUL) else s
    else if k.c == BACKSPACE || k.c == DELETE then
      if s.num > 0 then s.(num := s.num - 1) else s
    else Put(s, k.c)
  }

  datatype Editor = Editor(line: string, calls: seq<Call>)

  /** The editor without a buffer. */
  function Edit(cmds: seq<Command>, e: Editor, k: Key): Editor {
    var n := |e.line|;
    if n >= SIZE - 1 then e.(line := "")
    else if k.c as int >= 128 then e
    else if k.c == '\r' || k.c == '\n' then
      if n == 0 then e else
      Editor("", e.calls + Runs(cmds, if e.line[n - 1] != NUL then e.line + [NUL] else e.line, k.memory))
    else if k.c == ' ' then
      if n > 0 then e.(line := e.line + [NUL]) else e
    else if k.c == BACKSPACE || k.c == DELETE then
      if n > 0 then e.(line := e.line[..n - 1]) else e
    else e.(line := e.line + [k.c])
  }

  function PressAll(cmds: seq<Command>, s: State, keys: seq<Key>): (t: State)
    requires Sound(s)
    ensures Sound(t)
    decreases |keys|
  {
    if keys == [] then s else PressAll(cmds, Press(cmds, s, keys[0]), keys[1..])
  }

  function EditAll(cmds: seq<Command>, e: Editor, keys: seq<Key>): Editor
    decreases |keys|
  {
    if keys == [] then e else EditAll(cmds, Edit(cmds, e, keys[0]), keys[1..])
  }

  function Seen(s: State): Editor
    requires Sound(s)
  {
    Editor(s.buf[..s.num], s.calls)
  }

  /** No stale space where a space key would look. */
  predicate NoStaleSpaces(buf: string)
    requires |buf| == SIZE
  {
    forall i | 1 <= i < SIZE - 1 :: buf[i] != ' '
  }

  lemma PressEdits(cmds: seq<Command>, s: State, k: Key)
    requires Sound(s) && NoStaleSpaces(s.buf)
    ensures Seen(Press(cmds, s, k)) == Edit(cmds, Seen(s), k) && NoStaleSpaces(Press(cmds, s, k).buf)
  {
    hide Runs;
    var n := s.num;
    if n < SIZE - 1 {
      assert forall c :: s.buf[n := c][..n + 1] == s.buf[..n] + [c];
    }
  }

  lemma {:induction false} PressAllEdits(cmds: seq<Command>, s: State, keys: seq<Key>)
    requires Sound(s) && NoStaleSpaces(s.buf)
    ensures Seen(PressAll(cmds, s, keys)) == EditAll(cmds, Seen(s), keys)
    decreases |keys|
  {
    hide Press, Edit, NoStaleSpaces, Seen;
    if keys != [] {
      PressEdits(cmds, s, keys[0]);
      PressAllEdits(cmds, Press(cmds, s, keys[0]), keys[1..]);
    }
  }

  // ---------- exactly when the buffer is the pure editor ----------

  function Start(buf: string): (s: State)
    requires |buf| == SIZE
    ensures Sound(s)
  {
    State(buf, 0, [])
  }

  /** `n` times the key x. */
  function Xs(n: nat): seq<Key> { seq(n, _ => Key('x', 0)) }

  lemma {:induction false} TypeXs(cmds: seq<Command>, s: State, n: nat)
    requires Sound(s) && s.num + n < SIZE
    ensures var t := PressAll(cmds, s, Xs(n));
            t.num == s.num + n && t.calls == s.calls && forall i | t.num <= i < SIZE :: t.buf[i] == s.buf[i]
    decreases n
  {
    if n > 0 {
      assert Xs(n)[1..] == Xs(n - 1);
      TypeXs(cmds, Press(cmds, s, Key('x', 0)), n - 1);
    }
  }

  lemma {:induction false} PressAllAppend(cmds: seq<Command>, s: State, a: seq<Key>, b: seq<Key>)
    requires Sound(s)
    ensures PressAll(cmds, s, a + b) == PressAll(cmds, PressAll(cmds, s, a), b)
    decreases |a|
  {
    hide Press;
    if a == [] {
      assert a + b == b;
    } else {
      assert (a + b)[1..] == a[1..] + b;
      PressAllAppend(cmds, Press(cmds, s, a[0]), a[1..], b);
    }
  }

  lemma {:induction false} EditAllAppend(cmds: seq<Command>, e: Editor, a: seq<Key>, b: seq<Key>)
    ensures EditAll(cmds, e, a + b) == EditAll(cmds, EditAll(cmds, e, a), b)
    decreases |a|
  {
    hide Edit;
    if a == [] {
      assert a + b == b;
    } else {
      assert (a + b)[1..] == a[1..] + b;
      EditAllAppend(cmds, Edit(cmds, e, a[0]), a[1..], b);
    }
  }

  lemma {:induction false} EditXs(cmds: seq<Command>, e: Editor, n: nat)
    requires |e.line| + n < SIZE
    ensures |EditAll(cmds, e, Xs(n)).line| == |e.line| + n
    decreases n
  {
    if n > 0 {
      assert Xs(n)[1..] == Xs(n - 1);
      EditXs(cmds, Edit(cmds, e, Key('x', 0)), n - 1);
    }
  }

  /** A stale space at i makes the space key after i others do nothing. */
  lemma StaleSpaceShows(cmds: seq<Command>, buf: string, i: nat)
    requires |buf| == SIZE && 1 <= i < SIZE - 1 && buf[i] == ' '
    ensures var keys := Xs(i) + [Key(' ', 0)];
            && PressAll(cmds, Start(buf), keys) == PressAll(cmds, Start(buf), Xs(i))
            && EditAll(cmds, Editor("", []), keys).line == EditAll(cmds, Editor("", []), Xs(i)).line + [NUL]
            && Seen(PressAll(cmds, Start(buf), keys)) != EditAll(cmds, Editor("", []), keys)
  {
    var s, e, space := Start(buf), Editor("", []), Key(' ', 0);
    TypeXs(cmds, s, i);
    EditXs(cmds, e, i);
    PressAllAppend(cmds, s, Xs(i), [space]);
    EditAllAppend(cmds, e, Xs(i), [space]);
    var t, f := PressAll(cmds, s, Xs(i)), EditAll(cmds, e, Xs(i));
    hide Xs;
    assert [space][1..] == [];
    assert PressAll(cmds, Press(cmds, t, space), []) == Press(cmds, t, space);
    assert EditAll(cmds, Edit(cmds, f, space), []) == Edit(cmds, f, space);
  }

  /** For every keystroke sequence the buffer is the pure editor, exactly if it starts without spaces there. */
  lemma PureIffNoStaleSpaces(cmds: seq<Command>, buf: string)
    requires |buf| == SIZE
    ensures (forall keys :: Seen(PressAll(cmds, Start(buf), keys)) == EditAll(cmds, Editor("", []), keys))
       <==> NoStaleSpaces(buf)
  {
    if NoStaleSpaces(buf) {
      forall keys
        ensures Seen(PressAll(cmds, Start(buf), keys)) == EditAll(cmds, Editor("", []), keys)
      {
        PressAllEdits(cmds, Start(buf), keys);
      }
    } else {
      var i :| 1 <= i < SIZE - 1 && buf[i] == ' ';
      StaleSpaceShows(cmds, buf, i);
    }
  }

  // ---------- what the user gets ----------

  /** A character that is typed into the line as it is. */
  predicate Plain(c: char) {
    c as int < 128 && c != NUL && c != '\r' && c != '\n' && c != ' ' && c != BACKSPACE && c != DELETE
  }

  /** A backspace takes back the last key, a space too, exactly if the line was not about to overflow. */
  lemma BackspaceUndoesIff(cmds: seq<Command>, e: Editor, k: Key, back: Key)
    requires (Plain(k.c) || (k.c == ' ' && e.line != "")) && (back.c == BACKSPACE || back.c == DELETE)
    ensures Edit(cmds, Edit(cmds, e, k), back) == e <==> |e.line| < SIZE - 2
  {
    hide Runs;
    assert (e.line + [k.c])[..|e.line|] == e.line && (e.line + [NUL])[..|e.line|] == e.line;
  }

  /** The keys of a line: the words with one space between them. */
  function Typed(words: seq<string>): string {
    if words == [] then "" else if |words| == 1 then words[0] else words[0] + " " + Typed(words[1..])
  }

  function Keys(text: string): seq<Key> { seq(|text|, i requires 0 <= i < |text| => Key(text[i], 0)) }

  lemma {:induction false} WordIsTyped(cmds: seq<Command>, e: Editor, w: string)
    requires PlainWord(w) && |e.line| + |w| < SIZE
    ensures EditAll(cmds, e, Keys(w)) == Editor(e.line + w, e.calls)
    decreases |w|
  {
    hide Runs;
    if w == "" {
      assert e.line + w == e.line;
    } else {
      assert Keys(w)[1..] == Keys(w[1..]);
      assert Keys(w)[0] == Key(w[0], 0);
      WordIsTyped(cmds, Editor(e.line + [w[0]], e.calls), w[1..]);
      assert e.line + [w[0]] + w[1..] == e.line + w;
    }
  }

  /** Keys without effect: what is no ASCII, and on an empty line a space, an Enter or a backspace. */
  predicate Idle(line: string, c: char) {
    c as int >= 128 || (line == "" && c in [' ', '\r', '\n', BACKSPACE, DELETE])
  }

  lemma IdleKeysChangeNothing(cmds: seq<Command>, e: Editor, k: Key, keys: seq<Key>)
    requires |e.line| < SIZE - 1 && Idle(e.line, k.c)
    ensures EditAll(cmds, e, [k] + keys) == EditAll(cmds, e, keys)
  {
    hide Runs;
    assert ([k] + keys)[1..] == keys;
  }

  /** Leading spaces change nothing, however many. */
  lemma {:induction false} LeadingSpaces(cmds: seq<Command>, calls: seq<Call>, spaces: seq<Key>, keys: seq<Key>)
    requires forall k <- spaces :: k.c == ' '
    ensures EditAll(cmds, Editor("", calls), spaces + keys) == EditAll(cmds, Editor("", calls), keys)
    decreases |spaces|
  {
    hide EditAll;
    if spaces == [] {
      assert spaces + keys == keys;
    } else {
      assert spaces + keys == [spaces[0]] + (spaces[1..] + keys);
      IdleKeysChangeNothing(cmds, Editor("", calls), spaces[0], spaces[1..] + keys);
      LeadingSpaces(cmds, calls, spaces[1..], keys);
    }
  }

  /** With 127 characters in the line the next key, whatever it is, only empties the line. */
  lemma OverflowForgets(cmds: seq<Command>, e: Editor, k: Key, keys: seq<Key>)
    requires |e.line| >= SIZE - 1
    ensures EditAll(cmds, e, [k] + keys) == EditAll(cmds, Editor("", e.calls), keys)
  {
    assert ([k] + keys)[1..] == keys;
  }

  /** So of a long text without spaces the line keeps what follows the last multiple of 128 keys. */
  lemma {:induction false} LongTextWraps(cmds: seq<Command>, calls: seq<Call>, w: string)
    requires PlainWord(w)
    ensures EditAll(cmds, Editor("", calls), Keys(w)) == Editor(w[|w| - |w| % SIZE..], calls)
    decreases |w|
  {
    hide EditAll, Keys, PlainWord;
    if |w| < SIZE {
      WordIsTyped(cmds, Editor("", calls), w);
      assert "" + w == w == w[0..];
    } else {
      var a, x, rest := w[..SIZE - 1], Key(w[SIZE - 1], 0), w[SIZE..];
      FirstLine(w);
      WordIsTyped(cmds, Editor("", calls), a);
      assert "" + a == a;
      EditAllAppend(cmds, Editor("", calls), Keys(a), [x] + Keys(rest));
      OverflowForgets(cmds, Editor(a, calls), x, Keys(rest));
      LongTextWraps(cmds, calls, rest);
    }
  }

  lemma FirstLine(w: string)
    requires PlainWord(w) && |w| >= SIZE
    ensures var a, rest := w[..SIZE - 1], w[SIZE..];
            && PlainWord(a) && PlainWord(rest) && Keys(w) == Keys(a) + ([Key(w[SIZE - 1], 0)] + Keys(rest))
            && rest[|rest| - |rest| % SIZE..] == w[|w| - |w| % SIZE..]
  {
  }

  /** The same words as the editor lays them out, up to the NUL that Enter adds. */
  function Laid(words: seq<string>): string {
    if words == [] then "" else if |words| == 1 then words[0] else words[0] + [NUL] + Laid(words[1..])
  }

  predicate PlainWord(w: string) { forall i | 0 <= i < |w| :: Plain(w[i]) }

  predicate PlainWords(words: seq<string>) { forall i | 0 <= i < |words| :: PlainWord(words[i]) }

  lemma KeysAppend(a: string, b: string)
    ensures Keys(a + b) == Keys(a) + Keys(b)
  {
  }

  lemma OneMoreKey(cmds: seq<Command>, e: Editor, k: Key)
    ensures EditAll(cmds, e, [k]) == Edit(cmds, e, k)
  {
    assert [k][1..] == [];
    assert EditAll(cmds, Edit(cmds, e, k), []) == Edit(cmds, e, k);
  }

  lemma WordAndSpace(cmds: seq<Command>, e: Editor, w: string)
    requires PlainWord(w) && e.line + w != "" && |e.line| + |w| < SIZE - 1
    ensures EditAll(cmds, e, Keys(w + " ")) == Editor(e.line + w + [NUL], e.calls)
  {
    KeysAppend(w, " ");
    assert Keys(" ") == [Key(' ', 0)];
    hide Runs, PlainWord, EditAll, Keys;
    WordIsTyped(cmds, e, w);
    EditAllAppend(cmds, e, Keys(w), [Key(' ', 0)]);
    OneMoreKey(cmds, Editor(e.line + w, e.calls), Key(' ', 0));
  }

  lemma {:induction false} WordsAreTyped(cmds: seq<Command>, e: Editor, words: seq<string>)
    requires words != [] && PlainWords(words) && e.line + words[0] != ""
    requires |e.line| + |Typed(words)| < SIZE - 1
    ensures EditAll(cmds, e, Keys(Typed(words))) == Editor(e.line + Laid(words), e.calls)
    decreases |words|
  {
    hide Runs, PlainWord, EditAll, Edit, Keys;
    var w, rest := words[0], words[1..];
    if |words| == 1 {
      WordIsTyped(cmds, e, w);
    } else {
      WordAndSpace(cmds, e, w);
      KeysAppend(w + " ", Typed(rest));
      EditAllAppend(cmds, e, Keys(w + " "), Keys(Typed(rest)));
      WordsAreTyped(cmds, Editor(e.line + w + [NUL], e.calls), rest);
      assert e.line + w + [NUL] + Laid(rest) == e.line + Laid(words);
    }
  }

  lemma {:induction false} LaidIsJoined(words: seq<string>)
    requires words != [] && PlainWords(words) && words[|words| - 1] != ""
    ensures Laid(words) + [NUL] == Join(words) && Laid(words) != "" && Laid(words)[|Laid(words)| - 1] != NUL
    decreases |words|
  {
    assert PlainWord(words[|words| - 1]);
    if |words| > 1 {
      LaidIsJoined(words[1..]);
    } else {
      assert words[1..] == [];
      assert Join(words) == words[0] + [NUL] + "";
    }
  }

  lemma JoinedLineRuns(cmds: seq<Command>, words: seq<string>, memory: nat)
    requires words != [] && forall w <- words :: NUL !in w
    ensures Join(words) != "" && Closed(Join(words))
    ensures Runs(cmds, Join(words), memory)
         == match Lookup(cmds, words[0])
            case None => []
            case Some(c) => if |words| < memory then [Call(c.func, words)] else []
  {
    LineOfTokens(words);
    var s, k := Join(words), |words[0]|;
    assert s[k] == NUL && s[..k] == words[0];
    FirstNulIs(s, k);
  }

  /**
   * Words typed with one space between them, and Enter: the command registered last under the first word
   * gets exactly these words, provided memory lasts for them and their table, and the line is empty again.
   */
  lemma TypedCommandRuns(cmds: seq<Command>, calls: seq<Call>, words: seq<string>, enter: Key)
    requires words != [] && PlainWords(words) && words[0] != "" && words[|words| - 1] != ""
    requires |Typed(words)| < SIZE - 1 && (enter.c == '\r' || enter.c == '\n')
    ensures EditAll(cmds, Editor("", calls), Keys(Typed(words)) + [enter])
         == Editor("", calls + match Lookup(cmds, words[0])
                               case None => []
                               case Some(c) => if |words| < enter.memory then [Call(c.func, words)] else [])
  {
    hide Runs, EditAll, Keys, Typed, Laid, Join;
    forall w <- words ensures NUL !in w {
      var i :| 0 <= i < |words| && words[i] == w;
      assert PlainWord(words[i]);
    }
    hide PlainWords;
    WordsAreTyped(cmds, Editor("", calls), words);
    EditAllAppend(cmds, Editor("", calls), Keys(Typed(words)), [enter]);
    assert "" + Laid(words) == Laid(words);
    var e := Editor(Laid(words), calls);
    OneMoreKey(cmds, e, enter);
    LaidIsJoined(words);
    LaidLength(words);
    JoinedLineRuns(cmds, words, enter.memory);
  }

  lemma {:induction false} LaidLength(words: seq<string>)
    ensures |Laid(words)| == |Typed(words)|
    decreases |words|
  {
    if |words| > 1 {
      LaidLength(words[1..]);
    }
  }

  // ---------- any typed line: its length and its spaces ----------

  predicate Typed1(c: char) { c == ' ' || Plain(c) }

  predicate AllTyped(text: string) { forall i | 0 <= i < |text| :: Typed1(text[i]) }

  /** Text as a user types it: it does not start with a space, and Enter is not in it. */
  predicate Typable(text: string) {
    text != "" && text[0] != ' ' && AllTyped(text)
  }

  function Spaced(text: string): (s: string)
    ensures |s| == |text| && forall i | 0 <= i < |text| :: s[i] == SpacedChar(text[i])
  {
    seq(|text|, i requires 0 <= i < |text| => SpacedChar(text[i]))
  }

  /** What Enter makes of the line. */
  function Ended(line: string): string {
    if line != "" && line[|line| - 1] != NUL then line + [NUL] else line
  }

  function SpacedChar(c: char): char { if c == ' ' then NUL else c }

  lemma CharIsTyped(cmds: seq<Command>, e: Editor, c: char)
    requires Typed1(c) && |e.line| < SIZE - 1 && (e.line != "" || c != ' ')
    ensures Edit(cmds, e, Key(c, 0)) == Editor(e.line + [SpacedChar(c)], e.calls)
  {
  }

  lemma KeysAndSpaces(text: string)
    requires text != ""
    ensures Keys(text) == [Key(text[0], 0)] + Keys(text[1..])
    ensures Spaced(text) == [SpacedChar(text[0])] + Spaced(text[1..])
  {
  }

  lemma {:induction false} TextIsTyped(cmds: seq<Command>, e: Editor, text: string)
    requires AllTyped(text) && |e.line| + |text| < SIZE
    requires e.line != "" || text == "" || text[0] != ' '
    ensures EditAll(cmds, e, Keys(text)) == Editor(e.line + Spaced(text), e.calls)
    decreases |text|
  {
    if text == "" {
      assert e.line + Spaced(text) == e.line;
    } else {
      KeysAndSpaces(text);
      RestIsTyped(text);
      CharIsTyped(cmds, e, text[0]);
      hide Edit, Keys, Spaced, AllTyped, SpacedChar;
      var c, rest := SpacedChar(text[0]), text[1..];
      TextIsTyped(cmds, Editor(e.line + [c], e.calls), rest);
      Regroup(e.line, [c], Spaced(rest));
      FirstKey(cmds, e, Key(text[0], 0), Keys(rest));
    }
  }

  lemma RestIsTyped(text: string)
    requires text != "" && AllTyped(text)
    ensures Typed1(text[0]) && AllTyped(text[1..])
  {
    assert Typed1(text[0]);
    forall i | 0 <= i < |text| - 1 ensures Typed1(text[1..][i]) { assert Typed1(text[i + 1]); }
  }

  lemma FirstKey(cmds: seq<Command>, e: Editor, k: Key, keys: seq<Key>)
    ensures EditAll(cmds, e, [k] + keys) == EditAll(cmds, Edit(cmds, e, k), keys)
  {
    assert ([k] + keys)[1..] == keys;
  }

  lemma EnterEnds(cmds: seq<Command>, e: Editor, enter: Key)
    requires 0 < |e.line| < SIZE - 1 && (enter.c == '\r' || enter.c == '\n')
    ensures Ended(e.line) != "" && Closed(Ended(e.line))
    ensures Edit(cmds, e, enter) == Editor("", e.calls + Runs(cmds, Ended(e.line), enter.memory))
  {
    hide Runs;
  }

  /** A line that fits is run as it was typed. */
  lemma EnterRuns(cmds: seq<Command>, calls: seq<Call>, text: string, enter: Key)
    requires Typable(text) && |text| < SIZE - 1 && (enter.c == '\r' || enter.c == '\n')
    ensures Ended(Spaced(text)) != "" && Closed(Ended(Spaced(text)))
    ensures EditAll(cmds, Editor("", calls), Keys(text) + [enter])
         == Editor("", calls + Runs(cmds, Ended(Spaced(text)), enter.memory))
  {
    hide EditAll, Runs, Keys;
    TextIsTyped(cmds, Editor("", calls), text);
    assert "" + Spaced(text) == Spaced(text);
    EditAllAppend(cmds, Editor("", calls), Keys(text), [enter]);
    EnterEnds(cmds, Editor(Spaced(text), calls), enter);
    hide Spaced, AllTyped, Edit, Ended, Closed;
    OneMoreKey(cmds, Editor(Spaced(text), calls), enter);
  }

  /** Without Enter nothing is called, and the line stays short. */
  lemma {:induction false} TypingCallsNothing(cmds: seq<Command>, e: Editor, text: string)
    requires AllTyped(text) && |e.line| < SIZE
    ensures var f := EditAll(cmds, e, Keys(text)); f.calls == e.calls && |f.line| < SIZE
    decreases |text|
  {
    hide Runs;
    if text != "" {
      KeysAndSpaces(text);
      RestIsTyped(text);
      FirstKey(cmds, e, Key(text[0], 0), Keys(text[1..]));
      hide EditAll, Keys, AllTyped;
      TypingCallsNothing(cmds, Edit(cmds, e, Key(text[0], 0)), text[1..]);
    }
  }

  /** What Enter calls has no more than 127 characters, NULs included. */
  lemma EnterCallsShortLines(cmds: seq<Command>, e: Editor, enter: Key, call: Call)
    requires |e.line| < SIZE && (enter.c == '\r' || enter.c == '\n')
    requires Edit(cmds, e, enter).calls == e.calls + [call]
    ensures |e.line| < SIZE - 1 && Join(call.argv) == Ended(e.line)
  {
    assert e.calls + [call] != e.calls;
    var line := Ended(e.line);
    assert (e.calls + Runs(cmds, line, enter.memory))[|e.calls|..] == Runs(cmds, line, enter.memory);
    assert (e.calls + [call])[|e.calls|..] == [call];
    assert call in Runs(cmds, line, enter.memory);
    TokensAreTheLine(line);
  }

  /**
   * Given a listed command and enough memory, Enter calls it with what was typed if and only if that is
   * shorter than 127 characters.
   */
  lemma EnterCallsIffShort(cmds: seq<Command>, calls: seq<Call>, text: string, enter: Key, c: Command)
    requires Typable(text) && (enter.c == '\r' || enter.c == '\n')
    requires var line := Ended(Spaced(text));
             && NUL in line && Lookup(cmds, line[..FirstNul(line)]) == Some(c) && |Tokens(line)| < enter.memory
    ensures EditAll(cmds, Editor("", calls), Keys(text) + [enter]).calls
              == calls + [Call(c.func, Tokens(Ended(Spaced(text))))]
       <==> |text| < SIZE - 1
  {
    hide EditAll, Keys, AllTyped;
    var line := Ended(Spaced(text));
    var call := Call(c.func, Tokens(line));
    if |text| < SIZE - 1 {
      EnterRuns(cmds, calls, text, enter);
    } else {
      var e := EditAll(cmds, Editor("", calls), Keys(text));
      TypingCallsNothing(cmds, Editor("", calls), text);
      EditAllAppend(cmds, Editor("", calls), Keys(text), [enter]);
      OneMoreKey(cmds, e, enter);
      if |text| == SIZE - 1 {
        TextIsTyped(cmds, Editor("", calls), text);
        assert |e.line| == SIZE - 1;
      }
      TokensAreTheLine(line);
      hide EditAll, Keys, Tokens, Runs, Lookup;
      if Edit(cmds, e, enter).calls == calls + [call] {
        EnterCallsShortLines(cmds, e, enter, call);
      }
    }
  }

  /** A token is empty exactly where a NUL follows no character. */
  lemma {:induction false} EmptyTokenIff(s: string)
    requires Closed(s)
    ensures "" in Tokens(s) <==> exists i | 0 <= i < |s| :: s[i] == NUL && (i == 0 || s[i - 1] == NUL)
    decreases |s|
  {
    if s != "" {
      NulInClosed(s);
      var k := FirstNul(s);
      CutAt(s, k);
      var rest := s[k + 1..];
      EmptyTokenIff(rest);
      assert Tokens(s) == [s[..k]] + Tokens(rest);
    }
  }

  /** An argument is empty if and only if two spaces stand next to each other in what was typed. */
  lemma EmptyArgumentIffTwoSpaces(text: string)
    requires Typable(text)
    ensures Closed(Ended(Spaced(text)))
    ensures "" in Tokens(Ended(Spaced(text))) <==> exists i | 0 <= i < |text| - 1 :: text[i] == text[i + 1] == ' '
  {
    var s := Ended(Spaced(text));
    EmptyTokenIff(s);
    hide Tokens, Closed;
    forall i | 0 <= i < |text|
      ensures s[i] == NUL <==> text[i] == ' '
    {
      assert Typed1(text[i]);
    }
    hide Spaced, Typable, Ended;
    if i :| 0 <= i < |s| && s[i] == NUL && (i == 0 || s[i - 1] == NUL) {
      assert 0 <= i - 1 < |text| - 1 && text[i - 1] == text[i - 1 + 1] == ' ';
    }
    if i :| 0 <= i < |text| - 1 && text[i] == text[i + 1] == ' ' {
      assert s[i + 1] == NUL && s[i + 1 - 1] == NUL;
    }
  }

  lemma SpacedJoin(a: string, b: string)
    ensures Spaced(a + b) == Spaced(a) + Spaced(b)
  {
  }

  lemma PlainIsSpaced(w: string)
    requires PlainWord(w)
    ensures Spaced(w) == w && AllTyped(w)
  {
  }

  lemma AllTypedJoin(a: string, b: string)
    requires AllTyped(a) && AllTyped(b)
    ensures AllTyped(a + b)
  {
    forall i | 0 <= i < |a + b| ensures Typed1((a + b)[i]) {
      if i < |a| { assert Typed1(a[i]); } else { assert Typed1(b[i - |a|]); }
    }
  }

  lemma {:induction false} TypedIsLaid(words: seq<string>)
    requires PlainWords(words)
    ensures Spaced(Typed(words)) == Laid(words) && AllTyped(Typed(words))
    decreases |words|
  {
    if words != [] {
      PlainIsSpaced(words[0]);
      if |words| > 1 {
        TypedIsLaid(words[1..]);
        SpacedJoin(words[0] + " ", Typed(words[1..]));
        SpacedJoin(words[0], " ");
        assert Spaced(" ") == [NUL];
        hide Spaced, PlainWord;
        AllTypedJoin(words[0], " ");
        AllTypedJoin(words[0] + " ", Typed(words[1..]));
      }
    }
  }

  /** The same for words: their command gets them if and only if they were typed in fewer than 127 keys. */
  lemma WordsAreCalledIffShort(cmds: seq<Command>, calls: seq<Call>, words: seq<string>, enter: Key, c: Command)
    requires words != [] && PlainWords(words) && words[0] != "" && words[|words| - 1] != ""
    requires (enter.c == '\r' || enter.c == '\n') && Lookup(cmds, words[0]) == Some(c) && |words| < enter.memory
    ensures EditAll(cmds, Editor("", calls), Keys(Typed(words)) + [enter]).calls == calls + [Call(c.func, words)]
       <==> |Typed(words)| < SIZE - 1
  {
    var text := Typed(words);
    TypedIsLaid(words);
    LaidIsJoined(words);
    assert PlainWord(words[0]) && text[0] == words[0][0];
    forall w <- words ensures NUL !in w {
      var i :| 0 <= i < |words| && words[i] == w;
      assert PlainWord(words[i]);
    }
    LineOfTokens(words);
    var k := |words[0]|;
    assert Join(words)[k] == NUL && Join(words)[..k] == words[0];
    FirstNulIs(Join(words), k);
    hide EditAll, Keys, Typed, Laid, Join, Tokens, Spaced, PlainWords, Lookup;
    EnterCallsIffShort(cmds, calls, text, enter, c);
  }
}
