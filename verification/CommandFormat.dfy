/** The two command formatters: the length is computed first, the bytes written are
    exactly that many, both write the same bytes, and the reader gets the arguments
    back. */
module CommandFormat {
  import opened Bytes
  import opened Decimal
  import opened RespGrammar
  import opened RespMachine
  import opened RespWindow
  import RespReader
  import Sds

  function BulkReplies(argv: seq<bytes>): (rs: seq<Reply>)
    ensures |rs| == |argv| && forall i :: 0 <= i < |argv| ==> rs[i] == Text(String, argv[i])
  {
    seq(|argv|, i requires 0 <= i < |argv| => Text(String, argv[i]))
  }

  /** A command is an array of bulk strings. */
  function CommandReply(argv: seq<bytes>): Reply { Aggregate(Array, BulkReplies(argv)) }

  function ArgText(arg: bytes): bytes { [DOLLAR] + Dec(|arg|) + CRLF + arg + CRLF }

  function ArgsText(argv: seq<bytes>): bytes
  {
    if |argv| == 0 then [] else ArgsText(argv[..|argv| - 1]) + ArgText(argv[|argv| - 1])
  }

  /** The command's bytes, written out: a count line, then for each argument a
      length line, the argument and CR LF. */
  function CommandText(argv: seq<bytes>): bytes {
    [STAR] + DecInt(|argv|) + CRLF + ArgsText(argv)
  }

  /** bulklen */
  method BulkLen(len: nat) returns (r: nat)
    ensures forall arg: bytes :: |arg| == len ==> r == |ArgText(arg)|
  {
    var digits := CountDigits(len);
    r := 1 + digits + 2 + len + 2;
  }

  /** The length prediction both formatters start with. */
  method TotalLength(argv: seq<bytes>) returns (totlen: nat)
    ensures totlen == |CommandText(argv)|
  {
    var digits := CountDigits(|argv|);
    totlen := 1 + digits + 2;
    for j := 0 to |argv|
      invariant totlen == 1 + |Dec(|argv|)| + 2 + |ArgsText(argv[..j])|
    {
      var more := BulkLen(|argv[j]|);
      assert argv[..j + 1][..j] == argv[..j];
      totlen := totlen + more;
    }
    assert argv[..|argv|] == argv;
  }

  /** sprintf of a text at pos: the text and a terminator. */
  method Sprintf(cmd: array<byte>, pos: nat, text: bytes) returns (written: nat)
    requires pos + |text| < cmd.Length
    modifies cmd
    ensures written == |text| && cmd[..pos + |text|] == old(cmd[..pos]) + text
  {
    forall i | 0 <= i < |text| { cmd[pos + i] := text[i]; }
    cmd[pos + |text|] := NUL;
    written := |text|;
  }

  /** One argument: its length line, its bytes, CR LF. */
  method WriteArg(cmd: array<byte>, start: nat, arg: bytes) returns (pos: nat)
    requires start + |ArgText(arg)| < cmd.Length
    modifies cmd
    ensures pos == start + |ArgText(arg)| && cmd[..pos] == old(cmd[..start]) + ArgText(arg)
  {
    hide Dec;
    ghost var before := cmd[..start];
    var lenline := [DOLLAR] + Dec(|arg|) + CRLF;
    var written := Sprintf(cmd, start, lenline);
    pos := start + written;
    forall i | 0 <= i < |arg| { cmd[pos + i] := arg[i]; }
    pos := pos + |arg|;
    assert cmd[..pos] == before + lenline + arg;
    cmd[pos] := CR;
    cmd[pos + 1] := LF;
    pos := pos + 2;
    assert cmd[..pos] == before + lenline + arg + CRLF;
    assert before + lenline + arg + CRLF == before + ArgText(arg);
  }

  lemma {:induction false} ArgsTextPrefix(argv: seq<bytes>, j: nat)
    requires j <= |argv|
    ensures |ArgsText(argv[..j])| <= |ArgsText(argv)|
    decreases |argv| - j
  {
    if j < |argv| {
      assert argv[..j + 1][..j] == argv[..j];
      ArgsTextPrefix(argv, j + 1);
    } else {
      assert argv[..j] == argv;
    }
  }

  lemma {:induction false} ArgsTextLong(argv: seq<bytes>)
    ensures |argv| <= |ArgsText(argv)|
  {
    if |argv| > 0 { ArgsTextLong(argv[..|argv| - 1]); }
  }

  /** The loop over the arguments. */
  method WriteArgs(cmd: array<byte>, start: nat, argv: seq<bytes>) returns (pos: nat)
    requires start + |ArgsText(argv)| < cmd.Length
    modifies cmd
    ensures pos == start + |ArgsText(argv)| && cmd[..pos] == old(cmd[..start]) + ArgsText(argv)
  {
    ghost var head := cmd[..start];
    pos := start;
    assert argv[..0] == [] && head + [] == head;
    for j := 0 to |argv|
      invariant pos == start + |ArgsText(argv[..j])| && pos < cmd.Length
      invariant cmd[..pos] == head + ArgsText(argv[..j])
    {
      hide ArgText;
      assert argv[..j + 1][..j] == argv[..j];
      ArgsTextPrefix(argv, j + 1);
      pos := WriteArg(cmd, pos, argv[j]);
      Regroup(head, ArgsText(argv[..j]), ArgText(argv[j]));
    }
    assert argv[..|argv|] == argv;
  }

  /** redisFormatCommandArgv: every write stays inside the predicted length. */
  method FormatCommandArgv(argv: seq<bytes>) returns (cmd: array<byte>, totlen: nat)
    requires |CommandText(argv)| <= INT_MAX
    ensures fresh(cmd) && cmd.Length == totlen + 1
    ensures cmd[..totlen] == CommandText(argv) && cmd[totlen] == NUL
  {
    totlen := TotalLength(argv);
    cmd := new byte[totlen + 1];
    hide Dec, ArgText;
    ghost var head := [STAR] + DecInt(|argv|) + CRLF;
    var pos := Sprintf(cmd, 0, [STAR] + DecInt(|argv|) + CRLF);
    pos := WriteArgs(cmd, pos, argv);
    assert pos == totlen;
    cmd[pos] := NUL;
  }

  const COUNT_FORMAT: bytes := [STAR, PERCENT, 105, CR, LF]    // *%i CR LF
  const LENGTH_FORMAT: bytes := [DOLLAR, PERCENT, 117, CR, LF] // $%u CR LF

  /** A format character that is no directive. */
  lemma Plain(c: byte, fmt: bytes, args: seq<Sds.Arg>)
    requires c != PERCENT && c != NUL && Sds.Matches(fmt, args)
    ensures Sds.Matches([c] + fmt, args) && Sds.Format([c] + fmt, args) == [c] + Sds.Format(fmt, args)
  {
    assert ([c] + fmt)[1..] == fmt && args[0..] == args;
    assert Sds.Directive([c] + fmt, args) == ([c], (1, 0));
  }

  /** The line end of a format. */
  lemma LineEnd()
    ensures Sds.Matches(CRLF, []) && Sds.Format(CRLF, []) == CRLF
  {
    Plain(LF, [], []);
    Plain(CR, [LF], []);
  }

  lemma NumberDirective(fmt: bytes, args: seq<Sds.Arg>)
    requires |fmt| >= 2 && fmt[0] == PERCENT && (fmt[1] == 105 || fmt[1] == 117)
    requires |args| > 0 && args[0].NumArg? && 0 <= args[0].v <= INT_MAX && Sds.Matches(fmt[2..], args[1..])
    ensures Sds.Matches(fmt, args) && Sds.Format(fmt, args) == Dec(args[0].v) + Sds.Format(fmt[2..], args[1..])
  {
    hide Dec;
    assert Sds.Directive(fmt, args) == (Dec(args[0].v), (2, 1));
  }

  /** A number directive and the line end. */
  lemma NumberLine(c: byte, v: nat)
    requires (c == 105 || c == 117) && v <= INT_MAX
    ensures var fmt := [PERCENT, c, CR, LF];
      Sds.Matches(fmt, [Sds.NumArg(v)]) && Sds.Format(fmt, [Sds.NumArg(v)]) == Dec(v) + CRLF
  {
    hide Dec, Sds.Matches, Sds.Format;
    var fmt: bytes, args := [PERCENT, c, CR, LF], [Sds.NumArg(v)];
    assert fmt[2..] == CRLF && args[1..] == [];
    LineEnd();
    NumberDirective(fmt, args);
  }

  /** What a one-directive format line produces. */
  lemma LineFormat(lead: byte, c: byte, v: nat)
    requires lead != PERCENT && lead != NUL && (c == 105 || c == 117) && v <= INT_MAX
    ensures var fmt := [lead, PERCENT, c, CR, LF]; var args := [Sds.NumArg(v)];
      Sds.Matches(fmt, args) && Sds.Format(fmt, args) == [lead] + Dec(v) + CRLF
  {
    hide Dec, Sds.Matches, Sds.Format;
    NumberLine(c, v);
    Plain(lead, [PERCENT, c, CR, LF], [Sds.NumArg(v)]);
    assert [lead] + [PERCENT, c, CR, LF] == [lead, PERCENT, c, CR, LF];
  }

  /** One argument through sdscatfmt and sdscatlen. */
  method CatArg(cmd: Sds.String, arg: bytes)
    requires cmd.Valid() && cmd.len + |ArgText(arg)| <= INT_MAX
    modifies cmd, cmd.buf
    ensures cmd.Valid() && cmd.Contents() == old(cmd.Contents()) + ArgText(arg)
    ensures cmd.buf == old(cmd.buf) || fresh(cmd.buf)
  {
    hide Dec, Sds.Format, Sds.Matches;
    ghost var before := cmd.Contents();
    ghost var lenline := [DOLLAR] + Dec(|arg|) + CRLF;
    LineFormat(DOLLAR, 117, |arg|);
    cmd.CatFmt(LENGTH_FORMAT, [Sds.NumArg(|arg|)]);
    assert cmd.Contents() == before + lenline;
    cmd.CatLen(arg);
    cmd.CatLen(CRLF);
    assert before + lenline + arg + CRLF == before + ArgText(arg);
  }

  /** redisFormatSdsCommandArgv: the same bytes, through the sds appenders. */
  method FormatSdsCommandArgv(argv: seq<bytes>) returns (cmd: Sds.String, totlen: nat)
    requires |CommandText(argv)| <= INT_MAX
    ensures fresh(cmd) && fresh(cmd.buf) && cmd.Valid()
    ensures cmd.Contents() == CommandText(argv) && totlen == cmd.len
  {
    hide Dec, ArgText, Sds.Format, Sds.Matches, Sds.String.Contents;
    totlen := TotalLength(argv);
    cmd := new Sds.String([]);
    cmd.MakeRoomFor(totlen);
    ghost var head := [STAR] + DecInt(|argv|) + CRLF;
    ArgsTextLong(argv);
    LineFormat(STAR, 105, |argv|);
    cmd.CatFmt(COUNT_FORMAT, [Sds.NumArg(|argv|)]);
    assert [] + head == head && head + [] == head;
    for j := 0 to |argv|
      invariant fresh(cmd) && fresh(cmd.buf) && cmd.Valid()
      invariant cmd.Contents() == head + ArgsText(argv[..j])
    {
      assert argv[..j + 1][..j] == argv[..j];
      ArgsTextPrefix(argv, j + 1);
      CatArg(cmd, argv[j]);
      assert head + ArgsText(argv[..j]) + ArgText(argv[j]) == head + (ArgsText(argv[..j]) + ArgText(argv[j]));
    }
    assert argv[..|argv|] == argv;
    assert cmd.len == totlen;
  }

  // ----- round trip -----

  lemma ArgTextEncodes(arg: bytes, z: bytes)
    ensures EncodeOnto(Text(String, arg), z) == ArgText(arg) + z
  {
  }

  lemma {:induction false} EncodeManySnoc(rs: seq<Reply>, r: Reply, z: bytes)
    ensures EncodeManyOnto(rs + [r], z) == EncodeManyOnto(rs, EncodeOnto(r, z))
  {
    hide EncodeOnto;
    if |rs| == 0 {
      assert rs + [r] == [r] && [r][1..] == [];
    } else {
      assert (rs + [r])[1..] == rs[1..] + [r];
      EncodeManySnoc(rs[1..], r, z);
    }
  }

  lemma {:induction false} ArgsTextEncodes(argv: seq<bytes>, z: bytes)
    ensures EncodeManyOnto(BulkReplies(argv), z) == ArgsText(argv) + z
  {
    if |argv| == 0 {
      assert BulkReplies(argv) == [];
    } else {
      var init, last := argv[..|argv| - 1], argv[|argv| - 1];
      ArgTextEncodes(last, z);
      hide EncodeOnto, EncodeManyOnto, ArgText;
      var rs := BulkReplies(argv);
      assert rs == BulkReplies(init) + [Text(String, last)];
      EncodeManySnoc(BulkReplies(init), Text(String, last), z);
      ArgsTextEncodes(init, EncodeOnto(Text(String, last), z));
      assert ArgsText(init) + (ArgText(last) + z) == ArgsText(argv) + z;
    }
  }

  /** The command text is the printed form of the command as a reply. */
  lemma CommandTextEncodes(argv: seq<bytes>, z: bytes)
    ensures EncodeOnto(CommandReply(argv), z) == CommandText(argv) + z
  {
    ArgsTextEncodes(argv, z);
    assert [STAR] + (Dec(|argv|) + CRLF + (ArgsText(argv) + z)) == CommandText(argv) + z;
  }

  function CommandReplies(cmds: seq<seq<bytes>>): seq<Reply> {
    seq(|cmds|, i requires 0 <= i < |cmds| => CommandReply(cmds[i]))
  }

  function Pipeline(cmds: seq<seq<bytes>>): bytes {
    if |cmds| == 0 then [] else CommandText(cmds[0]) + Pipeline(cmds[1..])
  }

  lemma {:induction false} PipelineEncodes(cmds: seq<seq<bytes>>)
    ensures EncodeManyOnto(CommandReplies(cmds), []) == Pipeline(cmds)
  {
    hide CommandText, EncodeOnto;
    if |cmds| > 0 {
      assert CommandReplies(cmds)[1..] == CommandReplies(cmds[1..]);
      PipelineEncodes(cmds[1..]);
      CommandTextEncodes(cmds[0], Pipeline(cmds[1..]));
    }
  }

  lemma {:induction false} BulksAreSafe(dbl: bytes -> bool, argv: seq<bytes>)
    requires forall i :: 0 <= i < |argv| ==> |argv[i]| <= LLONG_MAX
    ensures var rs := BulkReplies(argv); PrintableMany(dbl, rs) && PushSafeMany(rs, false) && IndexedMany(rs)
  {
    if |argv| > 0 {
      assert BulkReplies(argv)[1..] == BulkReplies(argv[1..]);
      BulksAreSafe(dbl, argv[1..]);
    }
  }

  /** Argument counts and lengths as C's int and size_t bound them. */
  predicate Sendable(argv: seq<bytes>) {
    |argv| <= INT_MAX && forall i :: 0 <= i < |argv| ==> |argv[i]| <= LLONG_MAX
  }

  lemma {:induction false} CommandsAreSafe(dbl: bytes -> bool, cmds: seq<seq<bytes>>)
    requires forall i :: 0 <= i < |cmds| ==> Sendable(cmds[i])
    ensures var rs := CommandReplies(cmds); PrintableMany(dbl, rs) && PushSafeMany(rs, false) && IndexedMany(rs)
  {
    if |cmds| > 0 {
      assert CommandReplies(cmds)[1..] == CommandReplies(cmds[1..]);
      BulksAreSafe(dbl, cmds[0]);
      assert Sendable(cmds[0]);
      CommandsAreSafe(dbl, cmds[1..]);
    }
  }

  /** Pipelining: any list of commands, formatted one after another and read back,
      gives one array of strings per command, in order, byte for byte, with nothing
      left over. */
  lemma PipelineRoundTrip(dbl: bytes -> bool, cmds: seq<seq<bytes>>)
    requires forall i :: 0 <= i < |cmds| ==> Sendable(cmds[i])
    ensures Run(dbl, FRESH, Pipeline(cmds)) == Outcome(CommandReplies(cmds), Waiting(FRESH, []))
  {
    hide Run;
    PipelineEncodes(cmds);
    CommandsAreSafe(dbl, cmds);
    ReadsBackAll(dbl, CommandReplies(cmds));
  }

  /** No piece has more than 2^31 bytes together with a command. */
  predicate RoomForCommands(cmds: seq<seq<bytes>>, pieces: seq<bytes>) {
    forall c, y :: c in cmds && y in pieces ==> |CommandText(c)| + |y| <= INT_MAX + 1
  }

  lemma PipelineFits(dbl: bytes -> bool, cmds: seq<seq<bytes>>, pieces: seq<bytes>)
    requires (forall i :: 0 <= i < |cmds| ==> Sendable(cmds[i])) && Flatten(pieces) == Pipeline(cmds)
    requires RoomForCommands(cmds, pieces)
    ensures FitsWindow(dbl, pieces)
  {
    hide CommandText, CommandReply, EncodeOnto;
    var rs := CommandReplies(cmds);
    PipelineEncodes(cmds);
    CommandsAreSafe(dbl, cmds);
    forall i | 0 <= i < |cmds| ensures Encode(rs[i]) == CommandText(cmds[i]) {
      CommandTextEncodes(cmds[i], []);
      assert CommandText(cmds[i]) + [] == CommandText(cmds[i]);
    }
    PrintedFits(dbl, rs, pieces);
  }

  /** The same through the stateful reader: however the bytes of the pipeline are cut into
      pieces, the replies drained after each piece are the first of the commands. They are
      all of them, and the reader is left as new, if and only if it has not stopped before
      a line end that it does not see; with room for the commands it never does. */
  method ReadPipeline(reader: RespReader.Reader, cmds: seq<seq<bytes>>, pieces: seq<bytes>)
    returns (replies: seq<Reply>)
    requires reader.Valid() && reader.err == None && reader.ridx == -1 && reader.reply == None && reader.Rest() == []
    requires (forall i :: 0 <= i < |cmds| ==> Sendable(cmds[i])) && Flatten(pieces) == Pipeline(cmds)
    modifies reader
    ensures reader.Valid() && reader.err == None && replies <= CommandReplies(cmds)
    ensures replies == CommandReplies(cmds) && reader.State() == FRESH && reader.Rest() == [] <==>
      StepOn(reader.dbl, reader.State(), reader.Rest()).Blocked?
    ensures RoomForCommands(cmds, pieces) ==>
      replies == CommandReplies(cmds) && reader.State() == FRESH && reader.Rest() == []
  {
    hide Run, Pipeline, CommandReplies, PiecesFound, FitsWindow, StepOn, RoomForCommands, RunFound;
    PipelineRoundTrip(reader.dbl, cmds);
    PiecesFoundIff(reader.dbl, pieces);
    if RoomForCommands(cmds, pieces) {
      PipelineFits(reader.dbl, cmds, pieces);
      FittingPiecesFound(reader.dbl, pieces);
    }
    replies := reader.ReadPieces(pieces);
  }
}
