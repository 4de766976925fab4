/**
 * The nano console in place: allocation of the arguments with its failure path, the command list, and
 * the thread that reads the keys.
 */
module ConsoleTask {
  import opened Bytes
  import opened NanoConsole
  import opened Text

  /** The heap: blocks by address, never 0. `left` is how many more allocations succeed. */
  class Heap {
    var blocks: map<nat, string>
    var left: nat
    var next: nat

    ghost predicate Valid()
      reads this
    {
      next > 0 && forall at <- blocks :: 0 < at < next
    }

    /** malloc and the copy into the block */
    method Malloc(s: string) returns (at: nat)
      requires Valid()
      modifies this
      ensures Valid()
      ensures old(left) == 0 ==> at == 0 && blocks == old(blocks) && left == 0
      ensures old(left) > 0 ==> at > 0 && at !in old(blocks) && blocks == old(blocks)[at := s] && left == old(left) - 1
    {
      if left == 0 {
        return 0;
      }
      at := next;
      blocks := blocks[at := s];
      next := next + 1;
      left := left - 1;
    }

    /** free: only of a block that is allocated, so no block is freed twice. */
    method Free(at: nat)
      requires Valid() && at in blocks
      modifies this`blocks
      ensures Valid() && blocks == old(blocks) - {at}
    {
      blocks := blocks - {at};
    }
  }

  /** The table of alloc_args: its own block, and its cells.  Cell 0 is their number, the rest are addresses. */
  datatype Argv = Null | Argv(at: nat, cells: array<nat>)

  ghost function Addresses(cells: seq<nat>, from: nat): set<nat> {
    set j | from <= j < |cells| && cells[j] != 0 :: cells[j]
  }

  /** The table and its strings are allocated, and no two of them are the same block. */
  ghost predicate Owned(blocks: map<nat, string>, at: nat, cells: seq<nat>) {
    && at in blocks && (forall j | 1 <= j < |cells| && cells[j] != 0 :: cells[j] in blocks && cells[j] != at)
    && (forall j, k | 1 <= j < k < |cells| && cells[j] != 0 :: cells[j] != cells[k])
  }

  method FreeArgs(heap: Heap, argv: Argv)
    requires heap.Valid() && argv.Argv? && argv.cells.Length > 0 && argv.cells[0] == argv.cells.Length
    requires Owned(heap.blocks, argv.at, argv.cells[..])
    modifies heap`blocks
    ensures heap.Valid() && heap.blocks == old(heap.blocks) - ({argv.at} + Addresses(argv.cells[..], 1))
  {
    ghost var base, cells := heap.blocks, argv.cells[..];
    var num := argv.cells[0];
    var i := 1;
    while i < num
      invariant 1 <= i <= num && heap.Valid() && argv.cells[..] == cells
      invariant heap.blocks == base - (Addresses(cells, 1) - Addresses(cells, i))
      invariant Addresses(cells, i) <= Addresses(cells, 1)
    {
      if argv.cells[i] != 0 {
        assert argv.cells[i] !in Addresses(cells, 1) - Addresses(cells, i);
        heap.Free(argv.cells[i]);
      }
      assert Addresses(cells, i) == Addresses(cells, i + 1) + if cells[i] != 0 then {cells[i]} else {};
      i := i + 1;
    }
    assert Addresses(cells, num) == {};
    heap.Free(argv.at);
  }

  lemma {:induction false} TokensAreNuls(s: string)
    requires Closed(s)
    ensures |Tokens(s)| == multiset(s)[NUL]
    decreases |s|
  {
    if s != "" {
      NulInClosed(s);
      var k := FirstNul(s);
      CutAt(s, k);
      TokensAreNuls(s[k + 1..]);
      assert NUL !in multiset(s[..k]);
      assert multiset(s) == multiset(s[..k]) + multiset{NUL} + multiset(s[k + 1..]);
    }
  }

  method StrLen(pbuf: array<char>, p: nat, ghost end: nat) returns (len: nat)
    requires p <= end <= pbuf.Length && NUL in pbuf[p..end]
    ensures p + len < end && len == FirstNul(pbuf[p..end])
  {
    len := 0;
    ghost var s := pbuf[p..end];
    while pbuf[p + len] != NUL
      invariant len <= FirstNul(s) && NUL !in s[..len]
      decreases |s| - len
    {
      assert s[len] != NUL;
      len := len + 1;
    }
    FirstNulIs(s, len);
  }

  lemma NextToken(rest: string, ts: seq<string>, i: nat)
    requires Closed(rest) && i < |ts| && ts[i..] == Tokens(rest)
    ensures NUL in rest
    ensures var k := FirstNul(rest);
            ts[i] == rest[..k] && ts[i + 1..] == Tokens(rest[k + 1..]) && Closed(rest[k + 1..])
  {
    assert |ts[i..]| > 0;
    NulInClosed(rest);
    hide FirstNul, Closed;
    var k := FirstNul(rest);
    CutAt(rest, k);
    var t, more := rest[..k], Tokens(rest[k + 1..]);
    assert Tokens(rest) == [t] + more;
    hide Tokens;
    HeadOfRest(ts, i, t, more);
  }

  /** The first `i` of the strings are in blocks of their own, and without these the heap is `base`. */
  ghost predicate Stored(
      blocks: map<nat, string>, base: map<nat, string>, at: nat, cells: seq<nat>, ts: seq<string>, i: nat) {
    && |cells| == |ts| + 1 && i <= |ts| && Owned(blocks, at, cells)
    && (forall k | 1 <= k <= i :: cells[k] > 0 && cells[k] in blocks && blocks[cells[k]] == ts[k - 1])
    && (forall k | i < k < |cells| :: cells[k] == 0)
    && blocks - ({at} + Addresses(cells, 1)) == base
  }

  lemma StoreTable(base: map<nat, string>, at: nat, cells: seq<nat>, ts: seq<string>)
    requires at !in base && |cells| == |ts| + 1 && forall k | 0 < k < |cells| :: cells[k] == 0
    ensures Stored(base[at := ""], base, at, cells, ts, 0)
  {
    assert Addresses(cells, 1) == {};
    assert base[at := ""] - {at} == base;
  }

  lemma AddressesMore(cells: seq<nat>, j: nat, a: nat)
    requires 1 <= j < |cells| && cells[j] == 0 && a != 0
    ensures Addresses(cells[j := a], 1) == Addresses(cells, 1) + {a}
  {
    var more := cells[j := a];
    forall b | b in Addresses(cells, 1) + {a} ensures b in Addresses(more, 1) {
      if b == a {
        assert more[j] == b;
      } else {
        var k :| 1 <= k < |cells| && cells[k] != 0 && cells[k] == b;
        assert more[k] == b;
      }
    }
  }

  lemma StoreNext(
      blocks: map<nat, string>, base: map<nat, string>, at: nat, cells: seq<nat>, ts: seq<string>, i: nat, a: nat)
    requires Stored(blocks, base, at, cells, ts, i) && i < |ts| && a > 0 && a !in blocks
    ensures Stored(blocks[a := ts[i]], base, at, cells[i + 1 := a], ts, i + 1)
  {
    var more, later := cells[i + 1 := a], blocks[a := ts[i]];
    AddressesMore(cells, i + 1, a);
    assert Owned(later, at, more);
    hide Addresses, Owned;
    assert later - ({at} + Addresses(more, 1)) == blocks - ({at} + Addresses(cells, 1));
  }

  lemma GiveBack(blocks: map<nat, string>, base: map<nat, string>, at: nat, cells: seq<nat>, ts: seq<string>, i: nat)
    requires Stored(blocks, base, at, cells, ts, i)
    ensures Owned(blocks, at, cells) && blocks - ({at} + Addresses(cells, 1)) == base
  {
  }

  /** What the command finds behind argv. */
  function Strings(blocks: map<nat, string>, cells: seq<nat>): seq<string>
    requires |cells| > 0 && forall j | 1 <= j < |cells| :: cells[j] in blocks
  {
    seq(|cells| - 1, i requires 0 <= i < |cells| - 1 => blocks[cells[i + 1]])
  }

  lemma StoredStrings(blocks: map<nat, string>, base: map<nat, string>, at: nat, cells: seq<nat>, ts: seq<string>)
    requires Stored(blocks, base, at, cells, ts, |ts|)
    ensures forall j | 1 <= j < |cells| :: cells[j] in blocks
    ensures Strings(blocks, cells) == ts && Owned(blocks, at, cells)
    ensures blocks - ({at} + Addresses(cells, 1)) == base
  {
    hide Owned, Addresses;
    forall j | 1 <= j < |cells| ensures cells[j] in blocks && blocks[cells[j]] == ts[j - 1] {
    }
  }

  method CountNuls(pbuf: array<char>, num: nat) returns (cnt: nat)
    requires num <= pbuf.Length && Closed(pbuf[..num])
    ensures cnt == |Tokens(pbuf[..num])|
  {
    cnt := 0;
    ghost var s := pbuf[..num];
    for i := 0 to num
      invariant cnt == multiset(s[..i])[NUL]
    {
      assert s[..i + 1] == s[..i] + [s[i]];
      if pbuf[i] == NUL {
        cnt := cnt + 1;
      }
    }
    assert s[..num] == s;
    TokensAreNuls(s);
  }

  lemma TakeOfSlice(s: string, p: nat, end: nat, len: nat)
    requires p + len <= end <= |s|
    ensures s[p..end][..len] == s[p..p + len]
  {
  }

  /** strlen, malloc and memcpy of one token */
  method CopyToken(heap: Heap, pbuf: array<char>, p: nat, ghost end: nat) returns (len: nat, a: nat)
    requires heap.Valid() && p <= end <= pbuf.Length && NUL in pbuf[p..end]
    modifies heap
    ensures heap.Valid() && p + len < end && len == FirstNul(pbuf[p..end])
    ensures old(heap.left) == 0 ==> a == 0 && heap.blocks == old(heap.blocks) && heap.left == 0
    ensures old(heap.left) > 0 ==>
              && a > 0 && a !in old(heap.blocks) && heap.left == old(heap.left) - 1
              && heap.blocks == old(heap.blocks)[a := pbuf[p..end][..len]]
  {
    len := StrLen(pbuf, p, end);
    ghost var s := pbuf[..];
    assert pbuf[p..end] == s[p..end] && pbuf[p..p + len] == s[p..p + len];
    TakeOfSlice(s, p, end, len);
    a := heap.Malloc(pbuf[p..p + len]);
  }

  /** One round of the copying loop. */
  method StoreToken(
      heap: Heap, pbuf: array<char>, p: nat, end: nat, argv: Argv, i: nat,
      ghost base: map<nat, string>, ghost ts: seq<string>)
    returns (len: nat, ok: bool)
    requires heap.Valid() && p <= end <= pbuf.Length && NUL in pbuf[p..end] && argv.Argv? && i < |ts|
    requires Stored(heap.blocks, base, argv.at, argv.cells[..], ts, i)
    requires ts[i] == pbuf[p..end][..FirstNul(pbuf[p..end])]
    modifies heap, argv.cells
    ensures heap.Valid() && p + len < end && len == FirstNul(pbuf[p..end])
    ensures ok == (old(heap.left) > 0) && argv.cells[0] == old(argv.cells[0])
    ensures !ok ==> heap.blocks == old(heap.blocks) && argv.cells[..] == old(argv.cells[..])
    ensures ok ==> heap.left == old(heap.left) - 1 && Stored(heap.blocks, base, argv.at, argv.cells[..], ts, i + 1)
  {
    hide Owned, Addresses, FirstNul;
    ghost var blocks, cells := heap.blocks, argv.cells[..];
    var a;
    len, a := CopyToken(heap, pbuf, p, end);
    if a == 0 {
      return len, false;
    }
    StoreNext(blocks, base, argv.at, cells, ts, i, a);
    argv.cells[i + 1] := a;
    assert argv.cells[..] == cells[i + 1 := a];
    return len, true;
  }

  /** The copying loop; without memory for all of them it stops with what it has. */
  method CopyTokens(
      heap: Heap, pbuf: array<char>, num: nat, argv: Argv, cnt: nat,
      ghost base: map<nat, string>, ghost ts: seq<string>)
    returns (ok: bool)
    requires heap.Valid() && num <= pbuf.Length && Closed(pbuf[..num]) && ts == Tokens(pbuf[..num]) && cnt == |ts|
    requires argv.Argv? && argv.cells.Length == cnt + 1
    requires Stored(heap.blocks, base, argv.at, argv.cells[..], ts, 0)
    modifies heap, argv.cells
    ensures heap.Valid() && argv.cells[0] == old(argv.cells[0]) && ok == (old(heap.left) >= cnt)
    ensures ok ==> Stored(heap.blocks, base, argv.at, argv.cells[..], ts, cnt)
    ensures !ok ==> Owned(heap.blocks, argv.at, argv.cells[..])
                    && heap.blocks - ({argv.at} + Addresses(argv.cells[..], 1)) == base
  {
    hide Stored, Owned, Closed, FirstNul, Tokens, Addresses;
    ghost var s := pbuf[..num];
    var p: nat := 0;
    assert s[0..] == s && ts[0..] == ts;
    for i := 0 to cnt
      invariant p <= num && pbuf[..num] == s && Closed(s[p..]) && ts[i..] == Tokens(s[p..])
      invariant heap.Valid() && heap.left == old(heap.left) - i && argv.cells[0] == old(argv.cells[0])
      invariant Stored(heap.blocks, base, argv.at, argv.cells[..], ts, i)
    {
      NextToken(s[p..], ts, i);
      assert pbuf[p..num] == s[p..];
      ghost var blocks := heap.blocks;
      var len, stored := StoreToken(heap, pbuf, p, num, argv, i, base, ts);
      if !stored {
        GiveBack(blocks, base, argv.at, argv.cells[..], ts, i);
        return false;
      }
      DropDrop(s, p, len + 1);
      p := p + len + 1;
    }
    return true;
  }

  /** alloc_args: every token of the line in a block of its own, or nothing at all. */
  method AllocArgs(heap: Heap, pbuf: array<char>, num: nat) returns (argv: Argv)
    requires heap.Valid() && num <= pbuf.Length && Closed(pbuf[..num])
    modifies heap
    ensures heap.Valid() && argv.Argv? == (|Tokens(pbuf[..num])| < old(heap.left))
    ensures argv.Null? ==> heap.blocks == old(heap.blocks)
    ensures argv.Argv? ==>
              && fresh(argv.cells) && argv.cells.Length == |Tokens(pbuf[..num])| + 1 == argv.cells[0]
              && var ts := Tokens(pbuf[..num]);
                 Stored(heap.blocks, old(heap.blocks), argv.at, argv.cells[..], ts, |ts|)
  {
    ghost var s, base := pbuf[..num], heap.blocks;
    ghost var ts := Tokens(s);
    var cnt := CountNuls(pbuf, num);
    var at := heap.Malloc("");
    if at == 0 {
      return Null;
    }
    var cells := new nat[cnt + 1](_ => 0);
    cells[0] := cnt + 1;
    StoreTable(base, at, cells[..], ts);
    argv := Argv(at, cells);
    var ok := CopyTokens(heap, pbuf, num, argv, cnt, base, ts);
    if !ok {
      FreeArgs(heap, argv);
      return Null;
    }
  }

  // ---------- the console in place ----------

  /** strcmp(name, pbuf) == 0 for a line that is closed */
  method StrEqual(name: string, pbuf: array<char>, ghost end: nat) returns (same: bool)
    requires end <= pbuf.Length && NUL in pbuf[..end] && NUL !in name
    ensures same == (name == pbuf[..end][..FirstNul(pbuf[..end])])
  {
    ghost var s := pbuf[..end];
    ghost var k := FirstNul(s);
    var i := 0;
    while i < |name| && pbuf[i] == name[i]
      invariant i <= |name| && i <= k && name[..i] == s[..i]
    {
      assert name[i] in name && s[i] == name[i];
      i := i + 1;
    }
    same := i == |name| && pbuf[i] == NUL;
    if i < k {
      assert s[i] in s[..k] && s[..k][i] == s[i];
    }
    assert same ==> name == s[..k];
  }

  class Console {
    const heap: Heap
    const pbuf: array<char>
    var num: nat
    var commands: seq<Command> // s_nc_cmd, its head first
    var calls: seq<Call>

    ghost predicate Valid()
      reads this, heap
    {
      heap.Valid() && pbuf.Length == SIZE && num < SIZE && forall c <- commands :: NUL !in c.name
    }

    ghost function Value(): State
      requires Valid()
      reads this, heap, pbuf
    {
      State(pbuf[..], num, calls)
    }

    constructor (heap: Heap, pbuf: array<char>)
      requires heap.Valid() && pbuf.Length == SIZE
      ensures Valid() && this.heap == heap && this.pbuf == pbuf && commands == []
      ensures Value() == Start(pbuf[..])
    {
      this.heap, this.pbuf := heap, pbuf;
      num, commands, calls := 0, [], [];
    }

    /** nc_register_cmd: the new command goes to the head of the list; a failure leaves nothing behind. */
    method RegisterCmd(name: string, func: nat) returns (ok: bool)
      requires Valid() && NUL !in name
      modifies this`commands, heap
      ensures Valid() && ok == (old(heap.left) >= 2)
      ensures commands == if ok then [Command(name, func)] + old(commands) else old(commands)
      ensures !ok ==> heap.blocks == old(heap.blocks)
      ensures ok ==> exists cmd: nat, text: nat | cmd !in old(heap.blocks) && text !in old(heap.blocks) ::
                       cmd != text && heap.blocks == old(heap.blocks)[cmd := ""][text := name]
    {
      ghost var base := heap.blocks;
      var cmd := heap.Malloc("");
      if cmd == 0 {
        return false;
      }
      var text := heap.Malloc(name);
      if text == 0 {
        heap.Free(cmd);
        assert base[cmd := ""] - {cmd} == base;
        return false;
      }
      commands := [Command(name, func)] + commands;
      return true;
    }

    method GetCmd() returns (cmd: Option<Command>)
      requires Valid() && NUL in pbuf[..num]
      ensures cmd == Lookup(commands, pbuf[..num][..FirstNul(pbuf[..num])])
    {
      ghost var name := pbuf[..num][..FirstNul(pbuf[..num])];
      for i := 0 to |commands|
        invariant Lookup(commands, name) == Lookup(commands[i..], name)
      {
        assert commands[i..][0] == commands[i] && commands[i..][1..] == commands[i + 1..];
        var same := StrEqual(commands[i].name, pbuf, num);
        if same {
          return Some(commands[i]);
        }
      }
      return None;
    }

    /** What Enter does once the line is closed; every block that it allocates is freed again. */
    method Execute(memory: nat)
      requires Valid() && num > 0 && Closed(pbuf[..num]) && heap.left == memory
      modifies `calls, heap
      ensures Valid() && calls == old(calls) + Runs(commands, pbuf[..num], memory) && heap.blocks == old(heap.blocks)
    {
      hide Stored, Owned, Addresses, Strings, Tokens;
      ghost var line, blocks := pbuf[..num], heap.blocks;
      NulInClosed(line);
      var cmd := GetCmd();
      if cmd.Some? {
        var argv := AllocArgs(heap, pbuf, num);
        if argv.Argv? {
          StoredStrings(heap.blocks, blocks, argv.at, argv.cells[..], Tokens(line));
          calls := calls + [Call(cmd.value.func, Strings(heap.blocks, argv.cells[..]))];
          FreeArgs(heap, argv);
        }
      }
    }

    /** One round of nc_thread_entry after it has read the character c. */
    method PressKey(c: char)
      requires Valid()
      modifies `num, `calls, pbuf, heap
      ensures Valid() && Value() == Press(commands, old(Value()), Key(c, old(heap.left)))
      ensures heap.blocks == old(heap.blocks)
    {
      if num >= SIZE - 1 {
        num := 0;
        return;
      }
      if c as int >= 128 {
        return;
      }
      if c == '\r' || c == '\n' {
        if num == 0 {
          return;
        }
        if pbuf[num - 1] != NUL {
          pbuf[num] := NUL;
          num := num + 1;
        }
        Execute(heap.left);
        num := 0;
      } else if c == ' ' {
        if num > 0 && pbuf[num] != ' ' {
          pbuf[num] := NUL;
          num := num + 1;
        }
      } else if c == BACKSPACE || c == DELETE {
        if num > 0 {
          num := num - 1;
        }
      } else {
        pbuf[num] := c;
        num := num + 1;
      }
    }

    /** The loop of nc_thread_entry until reading fails; every key finds `memory` allocations left. */
    method ThreadLoop(keys: seq<Key>)
      requires Valid()
      modifies `num, `calls, pbuf, heap
      ensures Valid() && Value() == PressAll(commands, old(Value()), keys) && heap.blocks == old(heap.blocks)
    {
      hide Press;
      for i := 0 to |keys|
        invariant Valid() && heap.blocks == old(heap.blocks)
        invariant PressAll(commands, Value(), keys[i..]) == PressAll(commands, old(Value()), keys)
      {
        assert keys[i..][0] == keys[i] && keys[i..][1..] == keys[i + 1..];
        ghost var s := Value();
        heap.left := keys[i].memory;
        assert Value() == s;
        PressKey(keys[i].c);
        assert Value() == Press(commands, s, keys[i]);
      }
    }
  }
}
