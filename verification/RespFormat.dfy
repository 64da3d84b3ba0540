/** The command formatter of redis/hiredis.c, which sizes its buffer before it fills it. */
module RespFormat {
  import opened Common
  import opened Decimal
  import opened RespProtocol
  import Replies = RespReader

  /** A command is the array of its arguments as bulk strings. */
  function Command(argv: seq<string>): Reply {
    Array(Bulks(argv))
  }

  function Bulks(argv: seq<string>): (items: seq<Reply>)
    ensures |items| == |argv| && forall i :: 0 <= i < |argv| ==> items[i] == Str(argv[i])
  {
    if argv == [] then [] else [Str(argv[0])] + Bulks(argv[1..])
  }

  /** The number of bytes the bulk form of a string of this length takes. */
  method BulkLen(len: nat, ghost s: string) returns (r: nat)
    requires |s| == len
    ensures r == |Encode(Str(s))|
  {
    var digits := CountDigits(len);
    r := 1 + digits + 2 + len + 2;
  }

  /** Writes a string into the buffer and returns the position behind it. */
  method Put(cmd: array<char>, pos: nat, s: string) returns (end: nat)
    requires pos + |s| <= cmd.Length
    modifies cmd
    ensures end == pos + |s|
    ensures cmd[..end] == old(cmd[..pos]) + s
  {
    for i := 0 to |s|
      invariant cmd[..pos + i] == old(cmd[..pos]) + s[..i]
    {
      cmd[pos + i] := s[i];
      assert cmd[..pos + i + 1] == cmd[..pos + i] + [s[i]];
    }
    assert s[..|s|] == s;
    end := pos + |s|;
  }

  lemma {:induction false} EncodeAllBulksAppend(argv: seq<string>, j: nat)
    requires j < |argv|
    ensures EncodeAll(Bulks(argv[..j + 1])) == EncodeAll(Bulks(argv[..j])) + Encode(Str(argv[j]))
  {
    hide Encode, EncodeAll;
    assert Bulks(argv[..j + 1]) == Bulks(argv[..j]) + [Str(argv[j])];
    EncodeAllAppend(Bulks(argv[..j]), Str(argv[j]));
  }

  lemma {:induction false} BulksPrefixFits(argv: seq<string>, j: nat)
    requires j <= |argv|
    ensures |EncodeAll(Bulks(argv[..j]))| <= |EncodeAll(Bulks(argv))|
    decreases |argv| - j
  {
    if j == |argv| {
      assert argv[..j] == argv;
    } else {
      EncodeAllBulksAppend(argv, j);
      BulksPrefixFits(argv, j + 1);
    }
  }

  function Header(argc: nat): string { "*" + Spelling(argc) + CRLF }

  /** The command up to and including its first j arguments. */
  ghost function Part(argv: seq<string>, j: nat): string
    requires j <= |argv|
  {
    Header(|argv|) + EncodeAll(Bulks(argv[..j]))
  }

  lemma PartNext(argv: seq<string>, j: nat)
    requires j < |argv|
    ensures Part(argv, j + 1) == Part(argv, j) + Encode(Str(argv[j]))
    ensures |Part(argv, j + 1)| <= |Encode(Command(argv))|
  {
    EncodeAllBulksAppend(argv, j);
    BulksPrefixFits(argv, j + 1);
  }

  lemma PartEnds(argv: seq<string>)
    ensures Part(argv, 0) == Header(|argv|)
    ensures Part(argv, |argv|) == Encode(Command(argv))
    ensures |Header(|argv|)| <= |Encode(Command(argv))|
  {
    assert argv[..|argv|] == argv && argv[..0] == [];
    assert Header(|argv|) + EncodeAll([]) == Header(|argv|);
  }

  /** The first pass: the size of the whole command. */
  method CommandLength(argv: seq<string>) returns (totlen: nat)
    ensures totlen == |Encode(Command(argv))|
  {
    PartEnds(argv);
    var argc := |argv|;
    var digits := CountDigits(argc);
    totlen := 1 + digits + 2;
    for j := 0 to argc
      invariant totlen == |Part(argv, j)|
    {
      PartNext(argv, j);
      var len := BulkLen(|argv[j]|, argv[j]);
      totlen := totlen + len;
    }
  }

  /** Counts the bytes, then writes them; the two agree, and what is written is the encoded command. */
  method FormatCommandArgv(argv: seq<string>) returns (target: array<char>, totlen: nat)
    requires |argv| <= INT_MAX
    requires |Encode(Command(argv))| <= INT_MAX
    ensures fresh(target) && target.Length == totlen + 1
    ensures target[..totlen] == Encode(Command(argv)) && target[totlen] == '\0'
  {
    PartEnds(argv);
    totlen := CommandLength(argv);
    target := new char[totlen + 1](_ => '\0');
    var pos := Put(target, 0, Header(|argv|));
    for j := 0 to |argv|
      invariant pos == |Part(argv, j)| <= totlen
      invariant target[..pos] == Part(argv, j)
    {
      PartNext(argv, j);
      pos := PutBulk(target, pos, argv[j]);
    }
    assert pos == totlen;
    target[pos] := '\0';
  }

  /** One argument: length line, payload, CR LF. */
  method PutBulk(cmd: array<char>, pos0: nat, arg: string) returns (pos: nat)
    requires pos0 + |Encode(Str(arg))| <= cmd.Length
    modifies cmd
    ensures pos == pos0 + |Encode(Str(arg))|
    ensures cmd[..pos] == old(cmd[..pos0]) + Encode(Str(arg))
  {
    pos := Put(cmd, pos0, "$" + Spelling(|arg|) + CRLF);
    pos := Put(cmd, pos, arg);
    pos := Put(cmd, pos, CRLF);
  }

  /** Every argument list is read back from its command as the array of exactly those strings. */
  lemma CommandRoundTrip(argv: seq<string>)
    requires |argv| <= INT_MAX && |Encode(Command(argv))| <= INT_MAX
    ensures Drain(IDLE, Encode(Command(argv))) == Reading([Command(argv)], None, IDLE, "")
  {
    forall i | 0 <= i < |argv| ensures |argv[i]| <= LLONG_MAX {
      EncodeAllBulksAppend(argv, i);
      BulksPrefixFits(argv, i + 1);
      assert Encode(Command(argv)) == Header(|argv|) + EncodeAll(Bulks(argv));
    }
    DecodeExactlyToDepthEight(Command(argv), 1);
    assert forall i :: 0 <= i < |argv| ==> Sendable(Bulks(argv)[i], MAX_FRAMES - 1);
  }

  /** The code undoes its own formatting: however the command is cut on its way, the reader gives its arguments. */
  method SendCommand(argv: seq<string>, cuts: seq<nat>, spares: seq<nat>, maxbuf: nat) returns (replies: seq<Reply>)
    requires |argv| <= INT_MAX && |Encode(Command(argv))| <= INT_MAX && |spares| == |cuts| + 1
    ensures replies == [Command(argv)]
  {
    hide Encode, Drain, Cut, Concat;
    CommandRoundTrip(argv);
    var target, totlen := FormatCommandArgv(argv);
    var pieces := Cut(target[..totlen], cuts);
    forall i | 0 <= i < |pieces| ensures |Concat(pieces[..i])| + |pieces[i]| <= INT_MAX {
      ConcatPrefix(pieces, i);
    }
    var reader := new Replies.Reader(maxbuf);
    replies := reader.FeedPieces(pieces, spares);
  }
}
