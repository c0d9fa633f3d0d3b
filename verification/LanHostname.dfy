/**
  Setting the BMC's host name over IPMI in blocks of 16 characters, and reading
  it back block by block. A state machine on values; the handler
  itself, with its static block buffer, is in LanOemHandler.dfy.
 */
module LanHostname {
  const HOSTNAME_BLOCK := 16
  const HOSTNAME_LENGTH := 64
  const INTEL_HOSTNAME_CONFIG := 0xC7
  const CURRENT_REVISION: char := '\U{11}'
  const NUL: char := '\0'

  datatype Cc = Success | ReqDataLenInvalid | InvalidFieldRequest | Unprintable | ParamNotSupported

  predicate ValidChar(c: char) {
    'a' <= c <= 'z' || 'A' <= c <= 'Z' || '0' <= c <= '9' || c == '-'
  }

  /** `n` characters from `first` on. */
  function Range(first: char, n: nat): string
    requires first as int + n < 128
  {
    seq(n, i requires 0 <= i < n => (first as int + i) as char)
  }

  lemma InRange(first: char, n: nat, c: char)
    requires first as int + n < 128
    ensures c in Range(first, n) <==> first as int <= c as int < first as int + n
  {
    if first as int <= c as int < first as int + n {
      assert Range(first, n)[c as int - first as int] == c;
    }
  }

  lemma LowerCase()
    ensures "abcdefghijklmnopqrstuvwxyz" == Range('a', 26)
  {
  }

  lemma UpperCase()
    ensures "ABCDEFGHIJKLMNOPQRSTUVWXYZ" == Range('A', 26)
  {
  }

  lemma Digits()
    ensures "0123456789" == Range('0', 10)
  {
  }

  /** The 63 characters, one by one. */
  lemma ValidCharsAre(c: char)
    ensures ValidChar(c) <==>
            c in "abcdefghijklmnopqrstuvwxyz" + "ABCDEFGHIJKLMNOPQRSTUVWXYZ" + "0123456789" + "-"
  {
    hide Range;
    LowerCase();
    UpperCase();
    Digits();
    InRange('a', 26, c);
    InRange('A', 26, c);
    InRange('0', 10, c);
    var lower, upper, digits := Range('a', 26), Range('A', 26), Range('0', 10);
    assert c in lower + upper + digits + "-" <==> c in lower || c in upper || c in digits || c == '-';
  }

  /** find_first_of('\0'), and find_first_not_of(validHostnameChars); the length stands for npos. */
  function FirstNull(s: string): (i: nat)
    ensures i <= |s| && (i < |s| ==> s[i] == NUL) && forall j | 0 <= j < i :: s[j] != NUL
  {
    if s == "" || s[0] == NUL then 0 else 1 + FirstNull(s[1..])
  }

  function FirstInvalid(s: string): (i: nat)
    ensures i <= |s| && (i < |s| ==> !ValidChar(s[i])) && forall j | 0 <= j < i :: ValidChar(s[j])
  {
    if s == "" || !ValidChar(s[0]) then 0 else 1 + FirstInvalid(s[1..])
  }

  /** Every character before the first NUL is a host name character. */
  predicate ValidUpToNull(s: string) {
    forall j | 0 <= j < FirstNull(s) :: ValidChar(s[j])
  }

  lemma ComparesEqualExactly(s: string)
    requires NUL in s
    ensures FirstInvalid(s) == FirstNull(s) <==> ValidUpToNull(s)
  {
    assert !ValidChar(NUL);
    assert FirstNull(s) < |s|;
  }

  /** The static block buffer and the host name property it is committed to. */
  datatype Lan = Lan(block: string, hostname: string) {
    predicate Valid() { |block| == HOSTNAME_LENGTH }
  }

  function Zeroes(n: nat): string { seq(n, _ => NUL) }

  function Overlay(block: string, at: nat, data: string): string
    requires at + |data| <= |block|
  {
    block[..at] + data + block[at + |data|..]
  }

  /** `setLanOem` on a payload that is a block number, a completion flag and the data. */
  function SetBlock(s: Lan, block: nat, complete: nat, data: string): (r: (Lan, Cc))
    requires s.Valid()
    ensures r.0.Valid()
  {
    if |data| > HOSTNAME_BLOCK || (complete == 0 && |data| < HOSTNAME_BLOCK) then (s, ReqDataLenInvalid)
    else if !(0 < block < 5) || (complete != 0 && complete != 1) then (s, InvalidFieldRequest)
    else
      var start := if block == 1 then Zeroes(HOSTNAME_LENGTH) else s.block;
      var filled := Overlay(start, (block - 1) * HOSTNAME_BLOCK, data);
      if complete == 0 then (s.(block := filled), Success)
      else
        var name := filled[HOSTNAME_LENGTH - 1 := NUL];
        if FirstInvalid(name) != FirstNull(name) then (s.(block := name), Unprintable)
        else (Lan(name, name), Success)
  }

  function SetLanOem(s: Lan, parameter: nat, payload: string): (r: (Lan, Cc))
    requires s.Valid()
    ensures r.0.Valid()
  {
    if parameter != INTEL_HOSTNAME_CONFIG then (s, ParamNotSupported)
    else if |payload| < 2 then (s, ReqDataLenInvalid)
    else SetBlock(s, payload[0] as nat, payload[1] as nat, payload[2..])
  }

  /** `getLanOem` for one block of a host name string. */
  function GetBlock(hostname: string, block: nat): string
    requires 1 <= block <= 4
  {
    var head := (block - 1) * HOSTNAME_BLOCK;
    if head >= |hostname| then Zeroes(HOSTNAME_BLOCK)
    else
      var n := if |hostname| - head < HOSTNAME_BLOCK then |hostname| - head else HOSTNAME_BLOCK;
      hostname[head..head + n] + Zeroes(HOSTNAME_BLOCK - n)
  }

  function ReadAll(hostname: string): string {
    GetBlock(hostname, 1) + GetBlock(hostname, 2) + GetBlock(hostname, 3) + GetBlock(hostname, 4)
  }

  // ------------------------------------------------------------------ any message sequence

  datatype Message = Message(parameter: nat, payload: string)

  function Run(s: Lan, ms: seq<Message>): (t: Lan)
    requires s.Valid()
    ensures t.Valid()
  {
    if ms == [] then s else
    var last := ms[|ms| - 1];
    SetLanOem(Run(s, ms[..|ms| - 1]), last.parameter, last.payload).0
  }

  /** A committed name: terminated, and valid up to its first NUL. */
  predicate Committed(hostname: string) {
    |hostname| == HOSTNAME_LENGTH && hostname[HOSTNAME_LENGTH - 1] == NUL && ValidUpToNull(hostname)
  }

  /** Over any message sequence the stored name is the original one or a valid committed one. */
  lemma {:induction false} OnlyValidNamesStored(s: Lan, ms: seq<Message>)
    requires s.Valid()
    ensures Run(s, ms).hostname == s.hostname || Committed(Run(s, ms).hostname)
  {
    if ms != [] {
      OnlyValidNamesStored(s, ms[..|ms| - 1]);
      var t, last := Run(s, ms[..|ms| - 1]), ms[|ms| - 1];
      CommitExactly(t, last.parameter, last.payload);
    }
  }

  /** The block buffer after the message, before it is judged. */
  function Filled(s: Lan, block: nat, data: string): string
    requires s.Valid() && 0 < block < 5 && |data| <= HOSTNAME_BLOCK
  {
    Overlay(if block == 1 then Zeroes(HOSTNAME_LENGTH) else s.block, (block - 1) * HOSTNAME_BLOCK, data)
      [HOSTNAME_LENGTH - 1 := NUL]
  }

  predicate WellFormedCommit(parameter: nat, payload: string) {
    && parameter == INTEL_HOSTNAME_CONFIG && 2 <= |payload| <= 2 + HOSTNAME_BLOCK
    && 0 < payload[0] as nat < 5 && payload[1] as nat == 1
  }

  /**
    A message stores a name exactly when it is a well-formed last block and the
    64 characters collected with it are valid up to the first NUL; it then
    stores just those.
   */
  lemma CommitExactly(s: Lan, parameter: nat, payload: string)
    requires s.Valid()
    ensures var (t, cc) := SetLanOem(s, parameter, payload);
            if WellFormedCommit(parameter, payload) then
              var name := Filled(s, payload[0] as nat, payload[2..]);
              && (cc == Success <==> ValidUpToNull(name)) && (cc != Success ==> cc == Unprintable)
              && t.hostname == (if cc == Success then name else s.hostname)
              && (cc == Success ==> Committed(t.hostname))
            else t.hostname == s.hostname
  {
    if WellFormedCommit(parameter, payload) {
      var name := Filled(s, payload[0] as nat, payload[2..]);
      assert name[HOSTNAME_LENGTH - 1] == NUL;
      ComparesEqualExactly(name);
    }
  }

  /**
    Every answer to every message: the parameter is judged first, then the
    lengths, then block number and flag, and last the characters of a name; a
    message refused before that changes nothing.
   */
  lemma CodesExactly(s: Lan, parameter: nat, payload: string)
    requires s.Valid()
    ensures var cc := SetLanOem(s, parameter, payload).1;
            && (cc == ParamNotSupported <==> parameter != 0xC7)
            && (cc == ReqDataLenInvalid <==>
                  parameter == 0xC7 && (|payload| < 2 || |payload| > 18 || (payload[1] == '\0' && |payload| < 18)))
            && (cc in {InvalidFieldRequest, Unprintable, Success} ==>
                  (cc == InvalidFieldRequest <==> !('\U{1}' <= payload[0] <= '\U{4}') || payload[1] > '\U{1}'))
            && (cc == Unprintable ==> payload[1] == '\U{1}')
            && (cc !in {Success, Unprintable} ==> SetLanOem(s, parameter, payload).0 == s)
  {
  }

  /**
    What an accepted block does to the buffer, character by character, in
    whatever order blocks come: the data lands at its place, the first block
    clears the rest, any other keeps it, and the last one ends the name.
   */
  lemma BlockLands(s: Lan, payload: string, j: nat)
    requires s.Valid() && j < 64
    requires SetLanOem(s, 0xC7, payload).1 in {Success, Unprintable}
    ensures 2 <= |payload| <= 18
    ensures var t := SetLanOem(s, 0xC7, payload).0;
            var at := 16 * (payload[0] as nat - 1);
            t.block[j] ==
            if payload[1] == '\U{1}' && j == 63 then '\0'
            else if at <= j < at + |payload| - 2 then payload[2 + j - at]
            else if payload[0] == '\U{1}' then '\0'
            else s.block[j]
  {
  }

  // ------------------------------------------------------------------ the transfer

  predicate ValidName(name: string) { forall i | 0 <= i < |name| :: ValidChar(name[i]) }

  /** The number of blocks fits the name: all but the last are full. */
  predicate Fits(name: string, blocks: nat) {
    1 <= blocks <= 4 && HOSTNAME_BLOCK * (blocks - 1) <= |name| <= HOSTNAME_BLOCK * blocks
  }

  /** Block `i` of the name, counted from 1, the last of `blocks` carrying the completion flag. */
  function BlockMessage(name: string, blocks: nat, i: nat): Message
    requires Fits(name, blocks) && 1 <= i <= blocks
  {
    var data := name[HOSTNAME_BLOCK * (i - 1)..if i == blocks then |name| else HOSTNAME_BLOCK * i];
    Message(INTEL_HOSTNAME_CONFIG, [i as char, if i == blocks then 1 as char else NUL] + data)
  }

  function Transfer(name: string, blocks: nat): seq<Message>
    requires Fits(name, blocks)
  {
    seq(blocks, i requires 0 <= i < blocks => BlockMessage(name, blocks, i + 1))
  }

  function Padded(name: string, n: nat): string
    requires |name| <= n
  {
    name + Zeroes(n - |name|)
  }

  /** After `k` of the full blocks, the buffer holds that much of the name and zeroes. */
  lemma {:induction false} FullBlocks(s: Lan, name: string, blocks: nat, k: nat)
    requires s.Valid() && Fits(name, blocks) && k < blocks
    ensures var t := Run(s, Transfer(name, blocks)[..k]);
            && t.hostname == s.hostname
            && (k > 0 ==> t.block == Padded(name[..HOSTNAME_BLOCK * k], HOSTNAME_LENGTH))
  {
    var ms := Transfer(name, blocks)[..k];
    if k > 0 {
      FullBlocks(s, name, blocks, k - 1);
      assert ms[..k - 1] == Transfer(name, blocks)[..k - 1];
      var m := BlockMessage(name, blocks, k);
      assert ms[k - 1] == m;
      var t := Run(s, ms[..k - 1]);
      FullBlock(t, name, k, m);
    }
  }

  lemma FullBlock(t: Lan, name: string, k: nat, m: Message)
    requires t.Valid() && 1 <= k <= 3 && HOSTNAME_BLOCK * k <= |name|
    requires k > 1 ==> t.block == Padded(name[..HOSTNAME_BLOCK * (k - 1)], HOSTNAME_LENGTH)
    requires m == Message(INTEL_HOSTNAME_CONFIG, [k as char, NUL] + name[HOSTNAME_BLOCK * (k - 1)..HOSTNAME_BLOCK * k])
    ensures var u := SetLanOem(t, m.parameter, m.payload).0;
            u.hostname == t.hostname && u.block == Padded(name[..HOSTNAME_BLOCK * k], HOSTNAME_LENGTH)
  {
    var data := name[HOSTNAME_BLOCK * (k - 1)..HOSTNAME_BLOCK * k];
    assert m.payload[2..] == data;
    var start := if k == 1 then Zeroes(HOSTNAME_LENGTH) else t.block;
    assert start == Padded(name[..HOSTNAME_BLOCK * (k - 1)], HOSTNAME_LENGTH);
    assert Overlay(start, HOSTNAME_BLOCK * (k - 1), data) == Padded(name[..HOSTNAME_BLOCK * k], HOSTNAME_LENGTH);
  }

  /** The padded name with its 64th character cut off. */
  function Terminated(name: string): string
    requires |name| <= HOSTNAME_LENGTH
  {
    Padded(name, HOSTNAME_LENGTH)[HOSTNAME_LENGTH - 1 := NUL]
  }

  lemma TerminatedIsValid(name: string)
    requires |name| <= HOSTNAME_LENGTH && ValidName(name)
    ensures ValidUpToNull(Terminated(name))
  {
    var s := Terminated(name);
    var n := FirstNull(s);
    forall j | 0 <= j < n ensures ValidChar(s[j]) {
      assert s[j] != NUL;
      assert s[j] == name[j];
    }
  }

  lemma LastBlock(t: Lan, name: string, blocks: nat, payload: string)
    requires t.Valid() && Fits(name, blocks) && ValidName(name)
    requires blocks > 1 ==> t.block == Padded(name[..HOSTNAME_BLOCK * (blocks - 1)], HOSTNAME_LENGTH)
    requires payload == [blocks as char, 1 as char] + name[HOSTNAME_BLOCK * (blocks - 1)..]
    ensures SetLanOem(t, INTEL_HOSTNAME_CONFIG, payload).0.hostname == Terminated(name)
  {
    hide FirstNull, FirstInvalid, SetLanOem, ValidUpToNull;
    var head := HOSTNAME_BLOCK * (blocks - 1);
    var data := name[head..];
    assert payload[2..] == data;
    LastFills(t, name, blocks);
    hide Filled, Terminated;
    CommitExactly(t, INTEL_HOSTNAME_CONFIG, payload);
    TerminatedIsValid(name);
  }

  lemma LastFills(t: Lan, name: string, blocks: nat)
    requires t.Valid() && Fits(name, blocks)
    requires blocks > 1 ==> t.block == Padded(name[..HOSTNAME_BLOCK * (blocks - 1)], HOSTNAME_LENGTH)
    ensures Filled(t, blocks, name[HOSTNAME_BLOCK * (blocks - 1)..]) == Terminated(name)
  {
    var head := HOSTNAME_BLOCK * (blocks - 1);
    var start := if blocks == 1 then Zeroes(HOSTNAME_LENGTH) else t.block;
    assert start == Padded(name[..head], HOSTNAME_LENGTH);
    assert Overlay(start, head, name[head..]) == Padded(name, HOSTNAME_LENGTH);
  }

  /** What the whole transfer leaves, after any history. */
  lemma TransferStores(s: Lan, name: string, blocks: nat)
    requires s.Valid() && Fits(name, blocks) && ValidName(name)
    ensures Run(s, Transfer(name, blocks)).hostname == Terminated(name)
  {
    hide SetLanOem, Terminated, Transfer, Padded, ValidName;
    var ms := Transfer(name, blocks);
    FullBlocks(s, name, blocks, blocks - 1);
    var m := LastMessage(name, blocks);
    LastBlock(Run(s, ms[..blocks - 1]), name, blocks, m.payload);
  }

  lemma LastMessage(name: string, blocks: nat) returns (m: Message)
    requires Fits(name, blocks)
    ensures |Transfer(name, blocks)| == blocks && Transfer(name, blocks)[blocks - 1] == m
    ensures m == Message(INTEL_HOSTNAME_CONFIG, [blocks as char, 1 as char] + name[HOSTNAME_BLOCK * (blocks - 1)..])
  {
    m := BlockMessage(name, blocks, blocks);
  }

  /** The string up to its first NUL, as a bus that carries C strings returns it. */
  function CString(s: string): string { s[..FirstNull(s)] }

  lemma BlockOfPadded(hostname: string, block: nat)
    requires |hostname| <= HOSTNAME_LENGTH && 1 <= block <= 4
    ensures GetBlock(hostname, block) == Padded(hostname, HOSTNAME_LENGTH)[HOSTNAME_BLOCK * (block - 1)..HOSTNAME_BLOCK * block]
  {
  }

  lemma ReadAllPads(hostname: string)
    requires |hostname| <= HOSTNAME_LENGTH
    ensures ReadAll(hostname) == Padded(hostname, HOSTNAME_LENGTH)
  {
    hide GetBlock;
    var p := Padded(hostname, HOSTNAME_LENGTH);
    BlockOfPadded(hostname, 1);
    BlockOfPadded(hostname, 2);
    BlockOfPadded(hostname, 3);
    BlockOfPadded(hostname, 4);
    hide Padded;
    assert p == p[0..16] + p[16..32] + p[32..48] + p[48..64];
  }

  lemma CStringOfPadded(name: string)
    requires ValidName(name) && |name| < HOSTNAME_LENGTH
    ensures CString(Padded(name, HOSTNAME_LENGTH)) == name
  {
    var s := Padded(name, HOSTNAME_LENGTH);
    assert FirstNull(s) == |name| by {
      assert s[|name|] == NUL;
      if FirstNull(s) < |name| { assert s[FirstNull(s)] == name[FirstNull(s)]; }
    }
  }

  lemma PaddedIs(name: string)
    requires |name| <= 64
    ensures Padded(name, HOSTNAME_LENGTH) == name + seq(64 - |name|, _ => '\0')
  {
  }

  /**
    Round trip, after any history: the four blocks read back are the name padded
    with zeroes exactly when the name has at most 63 characters, and then also
    when the property comes back as a C string.
   */
  lemma RoundTrip(s: Lan, name: string, blocks: nat)
    requires s.Valid() && Fits(name, blocks) && ValidName(name)
    ensures var stored := Run(s, Transfer(name, blocks)).hostname;
            && (ReadAll(stored) == name + seq(64 - |name|, _ => '\0') <==> |name| < 64)
            && (|name| < 64 ==> CString(stored) == name && ReadAll(CString(stored)) == name + seq(64 - |name|, _ => '\0'))
  {
    TransferStores(s, name, blocks);
    PaddedIs(name);
    var stored := Run(s, Transfer(name, blocks)).hostname;
    ReadAllPads(stored);
    assert Padded(stored, HOSTNAME_LENGTH) == stored;
    if |name| < HOSTNAME_LENGTH {
      assert stored == Padded(name, HOSTNAME_LENGTH);
      CStringOfPadded(name);
      ReadAllPads(name);
    } else {
      assert Padded(name, HOSTNAME_LENGTH) == name;
      assert ValidChar(name[HOSTNAME_LENGTH - 1]);
    }
  }
}
