/** The chat screen of the console client: keys edit a line, Enter submits it, and a submitted
    line is a command, a file to offer, or a message. */
module Console {
  import opened Bytes
  import opened Wire
  import opened Session
  import opened Stream

  predicate Printable(c: byte) {
    32 <= c < 127
  }

  predicate AllPrintable(line: Text) {
    forall i :: 0 <= i < |line| ==> Printable(line[i])
  }

  const LEAVE_COMMAND: Text := [BAR, 113]
  const REFRESH_COMMAND: Text := [BAR, 114]
  /** A line that begins like this names a file. */
  const FILE_COMMAND: Text := [BAR, 102, SPACE]

  // -------------------------------------------------------------------------- the keys

  /** What a key does besides editing the line. */
  datatype KeyEffect = Edited | Refreshed | ChatLeft | FileRequested(argument: Text) | LineSent(line: Text)

  predicate IsEnter(c: byte) {
    c == 10 || c == 13
  }

  predicate IsErase(c: byte) {
    c == 127 || c == 8
  }

  function Submit(line: Text): KeyEffect {
    if line == LEAVE_COMMAND then ChatLeft
    else if line == [] || line == REFRESH_COMMAND then Refreshed
    else if FILE_COMMAND <= line then FileRequested(line[|FILE_COMMAND|..])
    else LineSent(line)
  }

  function Edit(line: Text, c: byte): (r: Text)
    ensures AllPrintable(line) ==> AllPrintable(r)
  {
    if IsEnter(c) then []
    else if IsErase(c) then (if line == [] then [] else line[..|line| - 1])
    else if Printable(c) then line + [c]
    else line
  }

  class ChatInput {
    var inputLine: Text

    constructor ()
      ensures inputLine == []
    {
      inputLine := [];
    }

    /** `HandleChatKey`, and the choice `SendChatLine` makes: only printable characters enter
        the line; Enter empties it and takes it for a command, a file or a message. */
    method HandleChatKey(c: byte) returns (effect: KeyEffect)
      modifies this
      ensures inputLine == Edit(old(inputLine), c)
      ensures effect == if IsEnter(c) then Submit(old(inputLine)) else Edited
    {
      if c == 10 || c == 13 {
        var line := inputLine;
        inputLine := [];
        if line == LEAVE_COMMAND { return ChatLeft; }
        if line == [] || line == REFRESH_COMMAND { return Refreshed; }
        if |line| >= 3 && line[..3] == FILE_COMMAND { return FileRequested(line[3..]); }
        return LineSent(line);
      }
      effect := Edited;
      if c == 127 || c == 8 {
        if inputLine != [] { inputLine := inputLine[..|inputLine| - 1]; }
        return;
      }
      if Printable(c) { inputLine := inputLine + [c]; }
    }
  }

  // ------------------------------------------------------------------ what is written

  datatype FileInfo = FileInfo(fsize: u32, name: Text)

  /** The surroundings of the screen: this machine's name, the clock reading and offer key for
      each frame written, and what, if any, regular file an argument names. */
  datatype Screen = Screen(service: Text, clock: nat -> u64, key: nat -> u32, look: Text -> Option<FileInfo>)

  /** The frame a submitted line is sent as, `n` frames having been written before. */
  function LineItem(screen: Screen, line: Text, n: nat): Option<Item> {
    match Submit(line)
    case LineSent(l) => Some(Chat(l, screen.clock(n)))
    case FileRequested(argument) =>
      (match screen.look(argument)
       case None => None
       case Some(f) => Some(Offer(screen.key(n), f.fsize, screen.service, f.name, screen.clock(n))))
    case _ => None
  }

  /** What is written for the submitted lines, up to the command that leaves the chat. */
  function Script(screen: Screen, lines: seq<Text>, n: nat): seq<Item>
    decreases |lines|
  {
    if lines == [] || Submit(lines[0]) == ChatLeft then []
    else
      match LineItem(screen, lines[0], n)
      case None => Script(screen, lines[1..], n)
      case Some(item) => [item] + Script(screen, lines[1..], n + 1)
  }

  /** The lines that Enter submits, in order. */
  function Entered(line: Text, keys: seq<byte>): (r: seq<Text>)
    requires AllPrintable(line)
    ensures forall i :: 0 <= i < |r| ==> AllPrintable(r[i])
    decreases |keys|
  {
    if keys == [] then []
    else (if IsEnter(keys[0]) then [line] else []) + Entered(Edit(line, keys[0]), keys[1..])
  }

  lemma EnteredTurn(line: Text, keys: seq<byte>, i: nat)
    requires AllPrintable(line) && i < |keys|
    ensures Entered(line, keys[i..])
         == (if IsEnter(keys[i]) then [line] else []) + Entered(Edit(line, keys[i]), keys[i + 1..])
  {
    assert keys[i..][1..] == keys[i + 1..];
  }

  lemma NothingEntered(line: Text)
    requires AllPrintable(line)
    ensures Entered(line, []) == []
  {
  }

  lemma EmptyPrintable()
    ensures AllPrintable([])
  {
  }

  /** One submitted line more. */
  lemma ScriptTurn(screen: Screen, line: Text, rest: seq<Text>, n: nat)
    ensures Script(screen, [line] + rest, n) ==
            if Submit(line) == ChatLeft then []
            else
              match LineItem(screen, line, n)
              case None => Script(screen, rest, n)
              case Some(item) => [item] + Script(screen, rest, n + 1)
  {
    assert ([line] + rest)[1..] == rest;
  }

  lemma {:induction false} PrintAllAppend(a: seq<Item>, b: seq<Item>)
    ensures PrintAll(a + b) == PrintAll(a) + PrintAll(b)
    decreases |a|
  {
    hide Print;
    if a == [] {
      assert a + b == b;
    } else {
      PrintAllAppend(a[1..], b);
      assert (a + b)[1..] == a[1..] + b;
    }
  }

  lemma PrintOne(item: Item)
    ensures PrintAll([item]) == Print(item)
  {
    hide Print;
    assert PrintAll([item]) == Print(item) + PrintAll([item][1..]);
    assert Print(item) + [] == Print(item);
  }

  /** The screen at work: whatever keys are pressed, the bytes written on the session are those
      of the script of the submitted lines. */
  method TypeKeys(screen: Screen, keys: seq<byte>) returns (wire: seq<byte>)
    ensures wire == PrintAll(Script(screen, Entered([], keys), 0))
  {
    hide Entered, Script, Edit, AllPrintable, PrintAll, Print;
    wire := [];
    EmptyPrintable();
    var input := new ChatInput();
    var n, i, here := 0, 0, true;
    ghost var items: seq<Item> := [];
    assert keys[0..] == keys;
    assert PrintAll([]) == [] by { NothingPrinted(); }
    assert [] + Script(screen, Entered([], keys), 0) == Script(screen, Entered([], keys), 0);
    while i < |keys| && here
      invariant 0 <= i <= |keys| && AllPrintable(input.inputLine) && wire == PrintAll(items) && n == |items|
      invariant Script(screen, Entered([], keys), 0)
             == items + if here then Script(screen, Entered(input.inputLine, keys[i..]), n) else []
    {
      ghost var line, before := input.inputLine, items;
      ghost var rest := Entered(Edit(line, keys[i]), keys[i + 1..]);
      EnteredTurn(line, keys, i);
      assert [] + rest == rest;
      ScriptTurn(screen, line, rest, n);
      var effect := input.HandleChatKey(keys[i]);
      i := i + 1;
      var item: Option<Item> := None;
      match effect {
        case LineSent(l) => item := Some(Chat(l, screen.clock(n)));
        case FileRequested(argument) =>
          var file := screen.look(argument);
          if file.Some? {
            item := Some(Offer(screen.key(n), file.value.fsize, screen.service, file.value.name, screen.clock(n)));
          }
        case ChatLeft => here := false;
        case _ =>
      }
      if item.Some? {
        wire := wire + Print(item.value);
        items, n := items + [item.value], n + 1;
        PrintOne(item.value);
        PrintAllAppend(before, [item.value]);
        Assoc(before, [item.value], Script(screen, rest, n));
      }
    }
    if here {
      assert keys[i..] == [];
      NothingEntered(input.inputLine);
      assert Script(screen, [], n) == [] by { NothingScripted(screen, n); }
    }
    assert items + [] == items;
  }

  lemma NothingPrinted()
    ensures PrintAll([]) == []
  {
  }

  lemma NothingScripted(screen: Screen, n: nat)
    ensures Script(screen, [], n) == []
  {
  }

  // ------------------------------------------------------------------- what arrives

  /** Unambiguous dispatch: for every text the console can type, at any time, and every file
      frame before the year 2144, exactly one of the two tests fires, and it is the one the
      sender meant. */
  lemma DispatchUnambiguous(line: Text, timestamp: u64, h: FileHeader, payload: seq<byte>)
    requires AllPrintable(line) && h.msgType in FILE_FRAME_TYPES && h.timestamp < 5 * TWO40
    ensures LooksLikeChat(ChatFrame(line, timestamp)) && !LooksLikeFile(ChatFrame(line, timestamp))
    ensures LooksLikeFile(FileFrame(h, payload, FILE_TEXT_SIZE)) && !LooksLikeChat(FileFrame(h, payload, FILE_TEXT_SIZE))
  {
    hide ChatFrame, FileFrame, LooksLikeChat, LooksLikeFile, ClockClear;
    ChatDispatchExact(line, timestamp);
    ClockClearExactly(5 * TWO40);
    FileDispatchExact(h, payload);
  }

  /** The submitted lines that are messages: not empty, none of the commands, before leaving. */
  function Messages(lines: seq<Text>): seq<Text>
    decreases |lines|
  {
    if lines == [] || lines[0] == LEAVE_COMMAND then []
    else (if lines[0] == [] || lines[0] == REFRESH_COMMAND || FILE_COMMAND <= lines[0] then [] else [lines[0]])
         + Messages(lines[1..])
  }

  function Cut(lines: seq<Text>): (r: seq<Text>)
    ensures |r| == |lines|
  {
    seq(|lines|, i requires 0 <= i < |lines| => lines[i][..Min(|lines[i]|, PAYLOAD_SIZE)])
  }

  /** The chat texts among what a session has posted, in order. */
  function ChatTexts(acts: seq<Action>): seq<Text>
    decreases |acts|
  {
    if acts == [] then []
    else (if acts[0].ChatIncoming? then [acts[0].text] else []) + ChatTexts(acts[1..])
  }

  lemma TextsCons(act: Action, rest: seq<Action>)
    ensures ChatTexts([act] + rest) == (if act.ChatIncoming? then [act.text] else []) + ChatTexts(rest)
  {
    assert ([act] + rest)[1..] == rest;
  }

  lemma MeaningCons(item: Item, rest: seq<Item>)
    ensures MeaningAll([item] + rest) == Meaning(item) + MeaningAll(rest)
  {
    hide Meaning;
    assert ([item] + rest)[1..] == rest;
  }

  lemma MeaningTexts(item: Item, rest: seq<Item>)
    requires item.Chat? || item.Offer?
    ensures ChatTexts(MeaningAll([item] + rest))
         == (if item.Chat? then Cut([item.text]) else []) + ChatTexts(MeaningAll(rest))
  {
    hide ChatTexts, MeaningAll, TransferActions;
    MeaningCons(item, rest);
    var act := Meaning(item)[0];
    assert Meaning(item) == [act];
    TextsCons(act, MeaningAll(rest));
  }

  lemma CutCons(line: Text, rest: seq<Text>)
    ensures Cut([line] + rest) == Cut([line]) + Cut(rest)
  {
  }

  lemma {:induction false} ScriptTexts(screen: Screen, lines: seq<Text>, n: nat)
    ensures ChatTexts(MeaningAll(Script(screen, lines, n))) == Cut(Messages(lines))
    decreases |lines|
  {
    hide ChatTexts, MeaningAll, Cut;
    if lines == [] || Submit(lines[0]) == ChatLeft {
      assert ChatTexts(MeaningAll([])) == Cut([]) by { NoTexts(); }
    } else {
      var item := LineItem(screen, lines[0], n);
      var rest := Script(screen, lines[1..], if item.Some? then n + 1 else n);
      ScriptTexts(screen, lines[1..], if item.Some? then n + 1 else n);
      if item.Some? {
        MeaningTexts(item.value, rest);
      }
      CutCons(lines[0], Messages(lines[1..]));
      assert [] + Messages(lines[1..]) == Messages(lines[1..]);
      assert [] + ChatTexts(MeaningAll(rest)) == ChatTexts(MeaningAll(rest));
    }
  }

  lemma NoTexts()
    ensures ChatTexts(MeaningAll([])) == Cut([])
  {
  }

  lemma {:induction false} ScriptSendable(screen: Screen, lines: seq<Text>, n: nat)
    requires forall i :: 0 <= i < |lines| ==> AllPrintable(lines[i])
    ensures forall i :: 0 <= i < |Script(screen, lines, n)| ==>
              Script(screen, lines, n)[i].Chat? ==> Sendable(Script(screen, lines, n)[i])
    ensures forall i :: 0 <= i < |Script(screen, lines, n)| ==>
              Script(screen, lines, n)[i].Chat? || Script(screen, lines, n)[i].Offer?
    decreases |lines|
  {
    if lines != [] && Submit(lines[0]) != ChatLeft {
      var item := LineItem(screen, lines[0], n);
      ScriptSendable(screen, lines[1..], if item.Some? then n + 1 else n);
    }
  }

  /** Every frame has its own clock reading, and every offer its own key. */
  lemma {:induction false} ScriptNumbered(screen: Screen, lines: seq<Text>, n: nat, k: nat)
    requires k < |Script(screen, lines, n)|
    ensures match Script(screen, lines, n)[k]
            case Chat(_, timestamp) => timestamp == screen.clock(n + k)
            case Offer(key, _, service, _, timestamp) =>
              key == screen.key(n + k) && service == screen.service && timestamp == screen.clock(n + k)
            case _ => false
    decreases |lines|
  {
    var item := LineItem(screen, lines[0], n);
    if item.None? {
      ScriptNumbered(screen, lines[1..], n, k);
    } else if k > 0 {
      ScriptNumbered(screen, lines[1..], n + 1, k - 1);
    }
  }

  /** What is typed arrives: for every sequence of keys, the receiver reads everything that was
      written, takes every frame for what it is, and the chat texts it posts are exactly the
      messages among the submitted lines, in order, cut to 128 characters. Only offers need a
      fitting name and a clear clock. */
  lemma TypedLinesArrive(s: Session, screen: Screen, keys: seq<byte>, present: set<Text>)
    requires Ready(s)
    requires forall i :: 0 <= i < |Script(screen, Entered([], keys), 0)| ==>
               Script(screen, Entered([], keys), 0)[i].Offer? ==> Sendable(Script(screen, Entered([], keys), 0)[i])
    ensures var script := Script(screen, Entered([], keys), 0);
            var (t, rest) := Receive(s, PrintAll(script), present);
            && Ready(t) && rest == [] && t.log == s.log + MeaningAll(script)
            && ChatTexts(t.log[|s.log|..]) == Cut(Messages(Entered([], keys)))
  {
    hide Receive, Print, Entered, Script, Sendable;
    var script := Script(screen, Entered([], keys), 0);
    ScriptSendable(screen, Entered([], keys), 0);
    ParserUndoesPrinter(s, script, present);
    ScriptTexts(screen, Entered([], keys), 0);
    var t := Receive(s, PrintAll(script), present).0;
    assert t.log[|s.log|..] == MeaningAll(script);
  }

  // ------------------------------------------------------------- what the keys spell

  lemma EnteredKey(line: Text, c: byte, rest: seq<byte>)
    requires AllPrintable(line)
    ensures Entered(line, [c] + rest) == (if IsEnter(c) then [line] else []) + Entered(Edit(line, c), rest)
  {
    assert ([c] + rest)[1..] == rest;
  }

  /** Printable keys and Enter submit the line with exactly these characters added. */
  lemma {:induction false} TextTyped(line: Text, text: Text, enter: byte, rest: seq<byte>)
    requires AllPrintable(line) && (forall i :: 0 <= i < |text| ==> 32 <= text[i] < 127) && enter in {10, 13}
    ensures Entered(line, text + [enter] + rest) == [line + text] + Entered([], rest)
    decreases |text|
  {
    hide Entered;
    if text == [] {
      assert text + [enter] + rest == [enter] + rest && line + text == line;
      EnteredKey(line, enter, rest);
    } else {
      var c, tail := text[0], text[1..];
      assert text + [enter] + rest == [c] + (tail + [enter] + rest);
      EnteredKey(line, c, tail + [enter] + rest);
      TextTyped(line + [c], tail, enter, rest);
      assert line + [c] + tail == line + text;
      assert [] + Entered(line + [c], tail + [enter] + rest) == Entered(line + [c], tail + [enter] + rest);
    }
  }

  /** A character that is erased again, an erase key on an empty line, and any other key that is
      not printable leave no trace. */
  lemma KeysWithoutTrace(line: Text, c: byte, erase: byte, other: byte, rest: seq<byte>)
    requires AllPrintable(line) && 32 <= c < 127 && erase in {127, 8}
    requires !(32 <= other < 127) && other !in {127, 8, 10, 13}
    ensures Entered(line, [c, erase] + rest) == Entered(line, rest)
    ensures Entered([], [erase] + rest) == Entered([], rest)
    ensures Entered(line, [other] + rest) == Entered(line, rest)
  {
    hide Entered;
    assert [c, erase] + rest == [c] + ([erase] + rest);
    EnteredKey(line, c, [erase] + rest);
    EnteredKey(line + [c], erase, rest);
    EnteredKey([], erase, rest);
    EnteredKey(line, other, rest);
    assert (line + [c])[..|line|] == line;
    assert forall x: seq<Text> :: [] + x == x;
  }

  /** The keys that type these lines. */
  function KeysFor(lines: seq<Text>): seq<byte> {
    if lines == [] then [] else lines[0] + [10] + KeysFor(lines[1..])
  }

  lemma {:induction false} LinesTyped(lines: seq<Text>)
    requires forall i :: 0 <= i < |lines| ==> AllPrintable(lines[i])
    ensures Entered([], KeysFor(lines)) == lines
    decreases |lines|
  {
    if lines != [] {
      LinesTyped(lines[1..]);
      TextTyped([], lines[0], 10, KeysFor(lines[1..]));
      assert [] + lines[0] == lines[0] && lines == [lines[0]] + lines[1..];
    }
  }

  /** A line that is a message: not empty, none of the commands "|q" and "|r", and not the
      beginning "|f ". */
  predicate IsMessage(line: Text) {
    line != [] && line != [124, 113] && line != [124, 114] && !([124, 102, 32] <= line)
  }

  lemma {:induction false} AllMessages(lines: seq<Text>)
    requires forall i :: 0 <= i < |lines| ==> IsMessage(lines[i])
    ensures Messages(lines) == lines
    decreases |lines|
  {
    if lines != [] {
      AllMessages(lines[1..]);
      assert lines == [lines[0]] + lines[1..];
    }
  }

  /** From the keys to the screen at the other end: type any lines that are messages, each ended
      by Enter, and exactly these lines arrive, in order, cut to 128 characters. */
  lemma MessagesArrive(s: Session, screen: Screen, lines: seq<Text>, present: set<Text>)
    requires Ready(s)
    requires forall i :: 0 <= i < |lines| ==> IsMessage(lines[i]) && AllPrintable(lines[i])
    ensures var (t, rest) := Receive(s, PrintAll(Script(screen, Entered([], KeysFor(lines)), 0)), present);
            && Ready(t) && rest == [] && s.log <= t.log
            && ChatTexts(t.log[|s.log|..]) == Cut(lines)
  {
    hide Receive, PrintAll, Sendable, IsMessage;
    LinesTyped(lines);
    AllMessages(lines);
    OnlyChats(screen, lines, 0);
    TypedLinesArrive(s, screen, KeysFor(lines), present);
  }

  lemma {:induction false} OnlyChats(screen: Screen, lines: seq<Text>, n: nat)
    requires forall i :: 0 <= i < |lines| ==> IsMessage(lines[i])
    ensures forall i :: 0 <= i < |Script(screen, lines, n)| ==> Script(screen, lines, n)[i].Chat?
    decreases |lines|
  {
    if lines != [] {
      OnlyChats(screen, lines[1..], n + 1);
    }
  }

  /** The file command: what follows "|f " is looked up, and offered if it is a file; nothing else
      is written. */
  lemma FileCommandTyped(screen: Screen, path: Text)
    requires AllPrintable(path)
    ensures Script(screen, Entered([], [124, 102, 32] + path + [10]), 0) ==
            match screen.look(path)
            case None => []
            case Some(f) => [Offer(screen.key(0), f.fsize, screen.service, f.name, screen.clock(0))]
  {
    var line := [124, 102, 32] + path;
    assert KeysFor([line]) == line + [10] + KeysFor([]);
    assert KeysFor([line]) == [124, 102, 32] + path + [10];
    LinesTyped([line]);
    assert line[3..] == path && [line] + [] == [line];
    ScriptTurn(screen, line, [], 0);
  }

  /** After "|q" nothing is written any more. */
  lemma NothingAfterLeaving(screen: Screen, keys: seq<byte>)
    ensures Script(screen, Entered([], [124, 113, 10] + keys), 0) == []
  {
    TextTyped([], [124, 113], 10, keys);
    assert [124, 113] + [10] + keys == [124, 113, 10] + keys && [] + [124, 113] == [124, 113];
    ScriptTurn(screen, [124, 113], Entered([], keys), 0);
  }
}
