/** The text commands of the WebSocket connection and what the peer gets in answer. */
module WebSocketCommands {
  import opened Bytes
  import opened WebSocketFrame

  // ----- text commands

  function Ascii(s: string): seq<byte> { seq(|s|, i requires 0 <= i < |s| => (s[i] as int) % 256) }

  /** The C string that starts here: everything before the first NUL. */
  function CString(s: seq<byte>): seq<byte> {
    if s == [] || s[0] == 0 then [] else [s[0]] + CString(s[1..])
  }

  /** strchr */
  function Find(s: seq<byte>, c: byte): (k: nat)
    ensures k <= |s| && (k < |s| ==> s[k] == c)
  {
    if s == [] || s[0] == c then 0 else 1 + Find(s[1..], c)
  }

  function SkipSpace(s: seq<byte>): seq<byte> {
    if s != [] && (s[0] == 32 || 9 <= s[0] <= 13) then SkipSpace(s[1..]) else s
  }

  function Digits(s: seq<byte>, value: nat): nat {
    if s != [] && 48 <= s[0] <= 57 then Digits(s[1..], value * 10 + s[0] - 48) else value
  }

  function Atol(s: seq<byte>): int {
    var t := SkipSpace(s);
    if t != [] && t[0] == 45 then -(Digits(t[1..], 0) as int)
    else if t != [] && t[0] == 43 then Digits(t[1..], 0)
    else Digits(t, 0)
  }

  datatype Command = Download(name: seq<byte>) | UploadStart(name: seq<byte>, size: int) | UploadComplete | Other

  function CommandOf(text: seq<byte>): Command {
    var c := CString(text);
    if Ascii("download:") <= c then
      Download(c[|Ascii("download:")|..])
    else if Ascii("upload_start:") <= c then
      var rest := c[|Ascii("upload_start:")|..];
      var k := Find(rest, 58);
      if k < |rest| then UploadStart(rest[..k], Atol(rest[k + 1..])) else Other
    else if c == Ascii("upload_complete") then
      UploadComplete
    else
      Other
  }

  // ----- answers

  const TEXT := 1
  const BINARY := 2
  const CLOSE := 8
  const PING := 9
  const PONG := 10
  const FILE_LIMIT := 10 * 1024 * 1024

  /** What the file system and the heap say when a download asks for a file. */
  datatype File = File(found: bool, hasMemory: bool, readable: bool, data: seq<byte>)

  function DownloadAnswer(file: File): Frame {
    if !file.found || file.data == [] then Sent(TEXT, Ascii("File not found"))
    else if |file.data| > FILE_LIMIT then Sent(TEXT, Ascii("File too large"))
    else if !file.hasMemory then Sent(TEXT, Ascii("Memory allocation failed"))
    else if !file.readable then Sent(TEXT, Ascii("File read failed"))
    else Sent(BINARY, file.data)
  }

  /** snprintf into 128 bytes; the size is printed as the 32-bit size_t it became. */
  function ReadyText(name: seq<byte>, size: int): (t: seq<byte>)
    ensures |t| <= 127
  {
    Take(Ascii("upload_ready:") + name + [58] + DecimalDigits(size % 0x1_0000_0000), 127)
  }

  /** The frames sent for one frame that was received: one or none. */
  function Answer(receiving: bool, opcode: byte, payload: seq<byte>, file: File): (fs: seq<Frame>)
    ensures |fs| <= 1 && forall f :: f in fs ==> WfFrame(f)
  {
    if opcode == TEXT then
      match CommandOf(payload)
      case Download(_) => [DownloadAnswer(file)]
      case UploadStart(name, size) => [Sent(TEXT, ReadyText(name, size))]
      case UploadComplete => if receiving then [Sent(TEXT, Ascii("upload_success"))] else []
      case Other => []
    else if opcode == PING then
      [Sent(PONG, [])]
    else
      []
  }

  /** Every send of the data makes progress. */
  predicate Progressing(results: seq<int>) { forall k :: 0 <= k < |results| ==> results[k] > 0 }

  /** `results` are what the socket's send returns for the pieces of a file. */
  method SendDownload(file: File, results: seq<int>) returns (out: seq<byte>)
    ensures out <= Wire(DownloadAnswer(file)) && (Progressing(results) ==> out == Wire(DownloadAnswer(file)))
  {
    hide Wire;
    if !file.found || file.data == [] {
      out := SendTextFrame(Ascii("File not found"));
    } else if |file.data| > FILE_LIMIT {
      out := SendTextFrame(Ascii("File too large"));
    } else if !file.hasMemory {
      out := SendTextFrame(Ascii("Memory allocation failed"));
    } else if !file.readable {
      out := SendTextFrame(Ascii("File read failed"));
    } else {
      out := SendBinaryFrame(file.data, results);
    }
  }

  /** The two bytes written out for a Ping are a Pong frame. */
  lemma {:induction false} PongBytes()
    ensures Wire(Sent(10, [])) == [0x8A, 0x00]
  {
  }

  /** A Pong must carry what the Ping carried (section 5.5.3 of RFC 6455): it does if and only if that was nothing. */
  lemma {:induction false} PongEchoes(payload: seq<byte>, receiving: bool, file: File)
    ensures Answer(receiving, 9, payload, file) == [Sent(10, payload)] <==> payload == []
  {
  }

  /** The frames sent, one behind the other. */
  function Sending(fs: seq<Frame>): seq<byte>
    requires forall f :: f in fs ==> WfFrame(f)
  {
    if fs == [] then [] else Wire(fs[0]) + Sending(fs[1..])
  }

  // ----- what a client writes

  predicate Plain(name: seq<byte>) { forall k :: 0 <= k < |name| ==> name[k] != 0 && name[k] != 58 }

  predicate AllDigits(s: seq<byte>) { forall k :: 0 <= k < |s| ==> 48 <= s[k] <= 57 }

  lemma {:induction false} NoNul(s: seq<byte>)
    requires forall k :: 0 <= k < |s| ==> s[k] != 0
    ensures CString(s) == s
    decreases |s|
  {
    if s != [] {
      NoNul(s[1..]);
    }
  }

  lemma {:induction false} FindBehind(name: seq<byte>, rest: seq<byte>)
    requires Plain(name)
    ensures Find(name + [58] + rest, 58) == |name|
    decreases |name|
  {
    var s := name + [58] + rest;
    if name != [] {
      FindBehind(name[1..], rest);
      assert s[1..] == name[1..] + [58] + rest;
    }
  }

  lemma {:induction false} DigitsAreDigits(n: nat)
    ensures AllDigits(DecimalDigits(n))
    decreases n
  {
    if n >= 10 {
      DigitsAreDigits(n / 10);
    }
  }

  lemma {:induction false} DigitsAppend(s: seq<byte>, t: seq<byte>, value: nat)
    requires AllDigits(s)
    ensures Digits(s + t, value) == Digits(t, Digits(s, value))
    decreases |s|
  {
    if s == [] {
      assert s + t == t;
    } else {
      assert (s + t)[1..] == s[1..] + t;
      DigitsAppend(s[1..], t, value * 10 + s[0] - 48);
    }
  }

  lemma {:induction false} OneDigit(d: byte, value: nat)
    requires 48 <= d <= 57
    ensures Digits([d], value) == value * 10 + d - 48
  {
    assert [d][1..] == [];
  }

  lemma {:induction false} DigitsRead(n: nat)
    ensures Digits(DecimalDigits(n), 0) == n
    decreases n
  {
    if n < 10 {
      OneDigit(48 + n, 0);
    } else {
      DigitsRead(n / 10);
      DigitsAreDigits(n / 10);
      DigitsAppend(DecimalDigits(n / 10), [48 + n % 10], 0);
      OneDigit(48 + n % 10, n / 10);
    }
  }

  lemma {:induction false} AtolReads(n: nat)
    ensures Atol(DecimalDigits(n)) == n
  {
    hide DecimalDigits;
    DigitsRead(n);
    DigitsAreDigits(n);
  }

  /** An upload command with a plain name and a decimal size is understood as exactly that. */
  lemma {:induction false} StartUnderstood(name: seq<byte>, size: nat)
    requires Plain(name)
    ensures CommandOf(Ascii("upload_start:") + name + [58] + DecimalDigits(size)) == UploadStart(name, size)
  {
    hide DecimalDigits, CString, Find, Atol;
    var head, digits := Ascii("upload_start:"), DecimalDigits(size);
    var text := head + name + [58] + digits;
    DigitsAreDigits(size);
    NoNul(text);
    assert text == head + (name + [58] + digits);
    assert text[0] != Ascii("download:")[0];
    FindBehind(name, digits);
    AtolReads(size);
    assert (name + [58] + digits)[..|name|] == name && (name + [58] + digits)[|name| + 1..] == digits;
  }

  // ----- the other commands and the answers, in their bytes

  lemma {:induction false} CommandBytes()
    ensures Ascii("upload_complete") == [0x75, 0x70, 0x6C, 0x6F, 0x61, 0x64, 0x5F, 0x63, 0x6F, 0x6D, 0x70, 0x6C, 0x65, 0x74, 0x65]
    ensures Ascii("download:") == [0x64, 0x6F, 0x77, 0x6E, 0x6C, 0x6F, 0x61, 0x64, 0x3A]
    ensures Ascii("upload_start:") == [0x75, 0x70, 0x6C, 0x6F, 0x61, 0x64, 0x5F, 0x73, 0x74, 0x61, 0x72, 0x74, 0x3A]
  {
  }

  lemma {:induction false} AnswerBytes()
    ensures Ascii("File not found") == [0x46, 0x69, 0x6C, 0x65, 0x20, 0x6E, 0x6F, 0x74, 0x20, 0x66, 0x6F, 0x75, 0x6E, 0x64]
    ensures Ascii("File too large") == [0x46, 0x69, 0x6C, 0x65, 0x20, 0x74, 0x6F, 0x6F, 0x20, 0x6C, 0x61, 0x72, 0x67, 0x65]
    ensures Ascii("File read failed") == [0x46, 0x69, 0x6C, 0x65, 0x20, 0x72, 0x65, 0x61, 0x64, 0x20, 0x66, 0x61, 0x69, 0x6C, 0x65, 0x64]
  {
  }

  lemma {:induction false} LongAnswerBytes()
    ensures Ascii("Memory allocation failed") ==
            [0x4D, 0x65, 0x6D, 0x6F, 0x72, 0x79, 0x20, 0x61, 0x6C, 0x6C, 0x6F, 0x63, 0x61, 0x74, 0x69, 0x6F, 0x6E, 0x20, 0x66, 0x61, 0x69, 0x6C, 0x65, 0x64]
  {
  }

  lemma {:induction false} ReadyBytes()
    ensures Ascii("upload_ready:") == [0x75, 0x70, 0x6C, 0x6F, 0x61, 0x64, 0x5F, 0x72, 0x65, 0x61, 0x64, 0x79, 0x3A]
    ensures Ascii("upload_success") == [0x75, 0x70, 0x6C, 0x6F, 0x61, 0x64, 0x5F, 0x73, 0x75, 0x63, 0x63, 0x65, 0x73, 0x73]
  {
  }

  /** The text up to its first NUL. */
  lemma {:induction false} CStringIs(s: seq<byte>)
    ensures var c := CString(s);
            && c <= s && (forall k :: 0 <= k < |c| ==> c[k] != 0) && (|c| < |s| ==> s[|c|] == 0)
    decreases |s|
  {
    if s != [] && s[0] != 0 {
      CStringIs(s[1..]);
      assert s == [s[0]] + s[1..];
      assert forall k :: 0 < k < |CString(s)| ==> CString(s)[k] == CString(s[1..])[k - 1];
    }
  }

  /** Exactly the text "upload_complete", alone or with a NUL behind it, completes an upload. */
  lemma {:induction false} CompleteUnderstood(text: seq<byte>)
    ensures var c: seq<byte> := [0x75, 0x70, 0x6C, 0x6F, 0x61, 0x64, 0x5F, 0x63, 0x6F, 0x6D, 0x70, 0x6C, 0x65, 0x74, 0x65];
            CommandOf(text) == UploadComplete <==> c <= text && (|text| == 15 || text[15] == 0)
  {
    hide CString, Find, Atol, Ascii;
    CommandBytes();
    CStringIs(text);
    var c: seq<byte> := [0x75, 0x70, 0x6C, 0x6F, 0x61, 0x64, 0x5F, 0x63, 0x6F, 0x6D, 0x70, 0x6C, 0x65, 0x74, 0x65];
    if c <= text && (|text| == 15 || text[15] == 0) {
      assert forall k :: 0 <= k < 15 ==> text[k] == c[k];
      assert |CString(text)| >= 15 ==> CString(text)[..15] == text[..15];
      assert CString(text) == c;
    }
    assert c[0] != Ascii("download:")[0] && c[7] != Ascii("upload_start:")[7];
  }

  lemma {:induction false} CStringFrom(s: seq<byte>, n: nat)
    requires n <= |s| && forall k :: 0 <= k < n ==> s[k] != 0
    ensures CString(s) == s[..n] + CString(s[n..])
    decreases n
  {
    if n == 0 {
      assert s[0..] == s;
    } else {
      CStringFrom(s[1..], n - 1);
      assert s[1..][n - 1..] == s[n..] && s[..n] == [s[0]] + s[1..][..n - 1];
    }
  }

  /** A download is asked for exactly by "download:" in front, and the name is what follows up to a NUL. */
  lemma {:induction false} DownloadUnderstood(text: seq<byte>)
    ensures var d: seq<byte> := [0x64, 0x6F, 0x77, 0x6E, 0x6C, 0x6F, 0x61, 0x64, 0x3A];
            && (CommandOf(text).Download? <==> d <= text)
            && (d <= text ==> CommandOf(text) == Download(CString(text[9..])))
  {
    hide Find, Atol, Ascii;
    CommandBytes();
    CStringIs(text);
    var d: seq<byte> := [0x64, 0x6F, 0x77, 0x6E, 0x6C, 0x6F, 0x61, 0x64, 0x3A];
    if d <= text {
      assert forall k :: 0 <= k < 9 ==> text[k] == d[k] != 0;
      CStringFrom(text, 9);
    }
  }

  lemma {:induction false} TextSent(text: seq<byte>)
    requires |text| < 126
    ensures Wire(Sent(1, text)) == [0x81, |text|] + text
  {
  }

  /** What goes out for a download: the file, or a text that says why not. */
  lemma {:induction false} DownloadAnswered(file: File)
    ensures var n := |file.data|;
            Wire(DownloadAnswer(file)) ==
            if !file.found || n == 0 then
              [0x81, 14] + [0x46, 0x69, 0x6C, 0x65, 0x20, 0x6E, 0x6F, 0x74, 0x20, 0x66, 0x6F, 0x75, 0x6E, 0x64]
            else if n > 10_485_760 then
              [0x81, 14] + [0x46, 0x69, 0x6C, 0x65, 0x20, 0x74, 0x6F, 0x6F, 0x20, 0x6C, 0x61, 0x72, 0x67, 0x65]
            else if !file.hasMemory then
              [0x81, 24] + [0x4D, 0x65, 0x6D, 0x6F, 0x72, 0x79, 0x20, 0x61, 0x6C, 0x6C, 0x6F, 0x63, 0x61, 0x74, 0x69, 0x6F, 0x6E, 0x20, 0x66, 0x61, 0x69, 0x6C, 0x65, 0x64]
            else if !file.readable then
              [0x81, 16] + [0x46, 0x69, 0x6C, 0x65, 0x20, 0x72, 0x65, 0x61, 0x64, 0x20, 0x66, 0x61, 0x69, 0x6C, 0x65, 0x64]
            else Wire(Frame(true, 0, 2, [], file.data, MinimalForm(n)))
  {
    hide Ascii, Wire;
    AnswerBytes();
    LongAnswerBytes();
    TextSent(Ascii("File not found"));
    TextSent(Ascii("File too large"));
    TextSent(Ascii("Memory allocation failed"));
    TextSent(Ascii("File read failed"));
  }

  /** A peer that reads the answer to its upload_start as it was written finds its name and its size in it. */
  lemma {:induction false} ReadyRead(name: seq<byte>, size: nat)
    requires Plain(name) && size < 0x1_0000_0000 && 14 + |name| + |DecimalDigits(size)| <= 127
    ensures var t := ReadyText(name, size);
            && t[..13] == [0x75, 0x70, 0x6C, 0x6F, 0x61, 0x64, 0x5F, 0x72, 0x65, 0x61, 0x64, 0x79, 0x3A]
            && Find(t[13..], 58) == |name| && t[13..][..|name|] == name && Atol(t[13..][|name| + 1..]) == size
            && ReadyText(name, size - 0x1_0000_0000) == t
  {
    hide Ascii, DecimalDigits, Find, Atol;
    ReadyBytes();
    var digits := DecimalDigits(size);
    var t := Ascii("upload_ready:") + name + [58] + digits;
    assert ReadyText(name, size) == t;
    assert t[13..] == name + [58] + digits;
    FindBehind(name, digits);
    AtolReads(size);
    assert (name + [58] + digits)[..|name|] == name && (name + [58] + digits)[|name| + 1..] == digits;
  }

  lemma {:induction false} SpaceSkipped(b: byte, s: seq<byte>)
    requires b == 32 || 9 <= b <= 13
    ensures Atol([b] + s) == Atol(s)
  {
    assert ([b] + s)[1..] == s;
  }

  /** White space and a sign may stand before a size. */
  lemma {:induction false} SignedSizes(n: nat)
    ensures var d := DecimalDigits(n);
            Atol([0x2D] + d) == -(n as int) && Atol([0x2B] + d) == n && Atol([0x20, 0x09] + d) == n && Atol([0x20, 0x2D] + d) == -(n as int)
  {
    hide DecimalDigits;
    var d := DecimalDigits(n);
    DigitsRead(n);
    DigitsAreDigits(n);
    AtolReads(n);
    SpaceSkipped(0x20, [0x09] + d);
    SpaceSkipped(0x09, d);
    SpaceSkipped(0x20, [0x2D] + d);
    assert [0x20, 0x09] + d == [0x20] + ([0x09] + d) && [0x20, 0x2D] + d == [0x20] + ([0x2D] + d);
    assert ([0x2D] + d)[1..] == d && ([0x2B] + d)[1..] == d;
  }

  lemma {:induction false} NothingFound(s: seq<byte>, c: byte)
    requires c !in s
    ensures Find(s, c) == |s|
    decreases |s|
  {
    if s != [] {
      NothingFound(s[1..], c);
    }
  }

  /** Without a colon behind the name the command is ignored. */
  lemma {:induction false} StartNeedsSize(name: seq<byte>)
    requires Plain(name)
    ensures CommandOf([0x75, 0x70, 0x6C, 0x6F, 0x61, 0x64, 0x5F, 0x73, 0x74, 0x61, 0x72, 0x74, 0x3A] + name) == Other
  {
    hide Find, Atol, Ascii, CString;
    CommandBytes();
    var head: seq<byte> := [0x75, 0x70, 0x6C, 0x6F, 0x61, 0x64, 0x5F, 0x73, 0x74, 0x61, 0x72, 0x74, 0x3A];
    NoNul(head + name);
    NothingFound(name, 58);
    assert (head + name)[13..] == name;
    assert (head + name)[0] != Ascii("download:")[0];
  }

  lemma {:induction false} SendingOne(f: Frame)
    requires WfFrame(f)
    ensures Sending([f]) == Wire(f)
  {
    hide Wire, WfFrame;
    assert [f][1..] == [];
    assert Sending([]) == [];
    assert Wire(f) + [] == Wire(f);
  }

  /** Every frame that is answered, by its opcode and its command, and the answer. */
  lemma {:induction false} AnswerIs(receiving: bool, opcode: byte, payload: seq<byte>, file: File)
    ensures var fs, c := Answer(receiving, opcode, payload, file), CommandOf(payload);
            && (opcode == 9 ==> Sending(fs) == [0x8A, 0x00])
            && (opcode == 1 && c.Download? ==> fs == [DownloadAnswer(file)])
            && (opcode == 1 && c.UploadStart? ==> fs == [Frame(true, 0, 1, [], ReadyText(c.name, c.size), MinimalForm(|ReadyText(c.name, c.size)|))])
            && (opcode == 1 && c.UploadComplete? && receiving ==>
                  Sending(fs) == [0x81, 14] + [0x75, 0x70, 0x6C, 0x6F, 0x61, 0x64, 0x5F, 0x73, 0x75, 0x63, 0x63, 0x65, 0x73, 0x73])
            && (opcode != 9 && !(opcode == 1 && !c.Other? && (c.UploadComplete? ==> receiving)) ==> fs == [])
  {
    hide Ascii, CommandOf, ReadyText, DownloadAnswer, Wire;
    ReadyBytes();
    PongBytes();
    TextSent(Ascii("upload_success"));
    SendingOne(Sent(10, []));
    SendingOne(Sent(1, Ascii("upload_success")));
  }
}
