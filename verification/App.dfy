/** The receiving application: the file being rebuilt (`BVReceivedFile`) and the handlers of
    the transfer events, which run in mailbox order. */
module App {
  import opened Bytes
  import opened Wire
  import Session

  const DATA: Path := [100, 97, 116, 97]

  /** The path operator `a / b`: an absolute `b` replaces `a`. */
  function Join(a: Path, b: Path): Path {
    if b != [] && b[0] == SLASH then b
    else if a == [] || a[|a| - 1] == SLASH then a + b
    else a + [SLASH] + b
  }

  function PathFor(root: Path, service: Text, fname: Text): Path {
    Join(Join(Join(root, DATA), service), fname)
  }

  /** A name that is one component of a path. */
  predicate Plain(name: Text) {
    name != [] && SLASH !in name
  }

  predicate RootPath(root: Path) {
    root != [] && root[|root| - 1] != SLASH
  }

  /** Received files lie under the sender's name in the data directory. */
  lemma PathLayout(root: Path, service: Text, fname: Text)
    requires RootPath(root) && service != [] && service[0] != SLASH && service[|service| - 1] != SLASH
    requires fname != [] && fname[0] != SLASH
    ensures PathFor(root, service, fname) == root + [SLASH] + DATA + [SLASH] + service + [SLASH] + fname
  {
    var data := root + [SLASH] + DATA;
    assert data[|data| - 1] == DATA[3];
    var dir := data + [SLASH] + service;
    assert dir[|dir| - 1] == service[|service| - 1];
    assert Join(root, DATA) == data && Join(data, service) == dir;
  }

  /** A root with a slash at its end means the same, and an empty root makes the path relative. */
  lemma PathOfOtherRoots(root: Path, service: Text, fname: Text)
    requires RootPath(root)
    ensures PathFor(root + [SLASH], service, fname) == PathFor(root, service, fname)
    ensures service != [] && service[0] != SLASH && service[|service| - 1] != SLASH && fname != [] && fname[0] != SLASH ==>
              PathFor([], service, fname) == DATA + [SLASH] + service + [SLASH] + fname
  {
    assert (root + [SLASH])[|root + [SLASH]| - 1] == SLASH;
    assert Join(root + [SLASH], DATA) == Join(root, DATA);
    if service != [] && service[0] != SLASH && service[|service| - 1] != SLASH && fname != [] && fname[0] != SLASH {
      assert Join([], DATA) == DATA;
      var dir := DATA + [SLASH] + service;
      assert Join(DATA, service) == dir && dir[|dir| - 1] == service[|service| - 1];
    }
  }

  /** An absolute file name replaces all of it. */
  lemma PathOfAbsolute(root: Path, service: Text, fname: Text)
    requires fname != [] && fname[0] == SLASH
    ensures PathFor(root, service, fname) == fname
  {
  }

  lemma SameTail(base: Path, x: Path, y: Path)
    requires base + x == base + y
    ensures x == y
  {
    assert x == (base + x)[|base|..] && y == (base + y)[|base|..];
  }

  lemma SameParts(s1: Text, n1: Text, s2: Text, n2: Text)
    requires SLASH !in s1 && SLASH !in s2 && s1 + [SLASH] + n1 == s2 + [SLASH] + n2
    ensures s1 == s2 && n1 == n2
  {
    var x, y := s1 + [SLASH] + n1, s2 + [SLASH] + n2;
    assert x[..|s1|] == s1 && y[..|s2|] == s2;
    FindIsFirst(x, SLASH, |s1|);
    FindIsFirst(y, SLASH, |s2|);
    assert x[|s1| + 1..] == n1 && y[|s2| + 1..] == n2;
  }

  /** For plain names, different pairs of sender and file have different destinations. */
  lemma PathsDiffer(root: Path, s1: Text, n1: Text, s2: Text, n2: Text)
    requires RootPath(root) && Plain(s1) && Plain(n1) && Plain(s2) && Plain(n2)
    ensures PathFor(root, s1, n1) == PathFor(root, s2, n2) <==> s1 == s2 && n1 == n2
  {
    hide PathFor;
    PathLayout(root, s1, n1);
    PathLayout(root, s2, n2);
    if PathFor(root, s1, n1) == PathFor(root, s2, n2) {
      var base := root + [SLASH] + DATA + [SLASH];
      assert PathFor(root, s1, n1) == base + (s1 + [SLASH] + n1);
      assert PathFor(root, s2, n2) == base + (s2 + [SLASH] + n2);
      SameTail(base, s1 + [SLASH] + n1, s2 + [SLASH] + n2);
      SameParts(s1, n1, s2, n2);
    }
  }

  datatype Status = StatusOk | StatusNok | StatusFatal

  /** `std::string::find`. */
  function Find(s: Text, c: byte): (r: Option<nat>)
    ensures r.None? ==> c !in s
    ensures r.Some? ==> r.value < |s| && s[r.value] == c && c !in s[..r.value]
  {
    if s == [] then None
    else if s[0] == c then Some(0)
    else
      match Find(s[1..], c)
      case None => None
      case Some(i) =>
        assert s[..i + 1] == [s[0]] + s[1..][..i];
        Some(i + 1)
  }

  lemma {:induction false} FindIsFirst(s: Text, c: byte, i: nat)
    requires i < |s| && s[i] == c && c !in s[..i]
    ensures Find(s, c) == Some(i)
  {
    if i > 0 {
      assert s[0] in s[..i];
      assert s[1..][..i - 1] == s[..i][1..];
      FindIsFirst(s[1..], c, i - 1);
    }
  }

  /** "service|name" as the BEGIN handler splits it; without a bar both are the whole text. */
  function SplitNames(text: Text): (Text, Text) {
    match Find(text, BAR)
    case None => (text, text)
    case Some(i) => (text[..i], text[i + 1..])
  }

  /** Without a bar, as the substring operations have it, both parts are the whole text. */
  lemma SplitNamesWithoutBar(text: Text)
    requires BAR !in text
    ensures SplitNames(text) == (text, text)
  {
  }

  lemma SplitNamesRoundTrip(service: Text, name: Text)
    requires BAR !in service
    ensures SplitNames(ServiceAndName(service, name)) == (service, name)
  {
    var text := ServiceAndName(service, name);
    var i := |service|;
    assert text[..i] == service && text[i + 1..] == name;
    FindIsFirst(text, BAR, i);
  }

  // --------------------------------------------------------------- the handlers' effect

  /** What the file system refuses: paths that cannot be opened, paths that can be opened but
      take no data, and paths that cannot be resized; and how much data the output stream keeps
      back until the file is closed. */
  datatype Disk = Disk(blocked: set<Path>, full: set<Path>, stuck: set<Path>, buffer: nat) {
    predicate Usable(p: Path) {
      p !in blocked && p !in full && p !in stuck
    }

    /** The stream has noticed the refusal before it is asked: less data than its buffer holds is
        written only when the file is closed, and nobody looks then. */
    predicate Notices(p: Path, data: seq<byte>) {
      p in full && |data| >= buffer
    }
  }

  /** Files, what the disk refuses, the transfers in progress by key, and whether a handler has
      failed: the mailbox loop throws on the first failing handler and nothing is handled after
      it. */
  datatype AppState = AppState(
    files: map<Path, seq<byte>>, disk: Disk, transfers: map<u32, (Text, Text)>, failed: bool)

  function Contents(a: AppState, p: Path): seq<byte> {
    if p in a.files then a.files[p] else []
  }

  function Target(root: Path, a: AppState, key: u32): Path
    requires key in a.transfers
  {
    PathFor(root, a.transfers[key].0, a.transfers[key].1)
  }

  function DestinationOf(root: Path, data: Session.FileData): Path {
    var (service, fname) := SplitNames(data.fdata);
    PathFor(root, service, fname)
  }

  /** What a path holds after `data` was written at its end. */
  function Written(a: AppState, p: Path, data: seq<byte>): seq<byte> {
    if p in a.disk.full then Contents(a, p) else Contents(a, p) + data
  }

  function OnBegin(root: Path, a: AppState, data: Session.FileData): AppState {
    var p := DestinationOf(root, data);
    if p in a.disk.blocked then a.(failed := true)
    else a.(files := a.files[p := []], transfers := a.transfers[data.correlationKey := SplitNames(data.fdata)])
  }

  function OnChunk(root: Path, a: AppState, data: Session.FileData): AppState {
    if data.correlationKey !in a.transfers then a.(failed := true)
    else
      var p := Target(root, a, data.correlationKey);
      if p in a.disk.blocked then a.(failed := true)
      else a.(files := a.files[p := Written(a, p, data.fdata)], failed := a.disk.Notices(p, data.fdata))
  }

  /** The last write is not checked: only opening and resizing can fail. */
  function OnEnd(root: Path, a: AppState, data: Session.FileData): AppState {
    if data.correlationKey !in a.transfers then a.(failed := true)
    else
      var p := Target(root, a, data.correlationKey);
      if p in a.disk.blocked then a.(failed := true)
      else if p in a.disk.stuck then a.(files := a.files[p := Written(a, p, data.fdata)], failed := true)
      else a.(files := a.files[p := Fit(Written(a, p, data.fdata), data.fsize)],
              transfers := a.transfers - {data.correlationKey})
  }

  /** One message from the mailbox; chat, offers and the rest do not touch files. */
  function Handle(root: Path, a: AppState, act: Session.Action): AppState {
    if a.failed then a
    else match act
         case TransferBegin(data) => OnBegin(root, a, data)
         case ChunkReceived(data) => OnChunk(root, a, data)
         case TransferEnd(data) => OnEnd(root, a, data)
         case _ => a
  }

  function HandleAll(root: Path, a: AppState, acts: seq<Session.Action>): AppState
    decreases |acts|
  {
    if acts == [] then a else HandleAll(root, Handle(root, a, acts[0]), acts[1..])
  }

  lemma {:induction false} HandleAllAppend(root: Path, a: AppState, x: seq<Session.Action>, y: seq<Session.Action>)
    ensures HandleAll(root, a, x + y) == HandleAll(root, HandleAll(root, a, x), y)
    decreases |x|
  {
    hide Handle;
    if x == [] {
      assert x + y == y;
    } else {
      HandleAllAppend(root, Handle(root, a, x[0]), x[1..], y);
      assert (x + y)[1..] == x[1..] + y;
    }
  }

  // ---------------------------------------------------------------- the client object

  class Client {
    const root: Path
    const disk: Disk
    var files: map<Path, seq<byte>>
    var fileTransferData: map<u32, (Text, Text)>
    var failed: bool

    ghost function View(): AppState
      reads this
    {
      AppState(files, disk, fileTransferData, failed)
    }

    constructor (root: Path, files: map<Path, seq<byte>>, disk: Disk)
      ensures View() == AppState(files, disk, map[], false) && this.root == root
    {
      this.root, this.files, this.disk, fileTransferData, failed := root, files, disk, map[], false;
    }

    /** `BVReceivedFile::Begin`: the destination starts empty whatever was there. */
    method Begin(service: Text, fname: Text) returns (status: Status)
      modifies `files
      ensures var p := PathFor(root, service, fname);
              if p in disk.blocked then status == StatusFatal && files == old(files)
              else status == StatusOk && files == old(files)[p := []]
    {
      var p := PathFor(root, service, fname);
      if p in disk.blocked { return StatusFatal; }
      files := files[p := []];
      status := StatusOk;
    }

    /** Opens for appending, writes and closes; tells the state of the stream before it closed. */
    method Write(p: Path, data: seq<byte>) returns (good: bool)
      requires p !in disk.blocked
      modifies `files
      ensures good <==> !disk.Notices(p, data)
      ensures files == old(files)[p := Written(old(View()), p, data)]
    {
      good := !(p in disk.full && |data| >= disk.buffer);
      var before := if p in files then files[p] else [];
      files := files[p := if p in disk.full then before else before + data];
    }

    /** `BVReceivedFile::AppendChunk`. */
    method AppendChunk(service: Text, fname: Text, data: seq<byte>) returns (status: Status)
      modifies `files
      ensures var p := PathFor(root, service, fname);
              if p in disk.blocked then status == StatusFatal && files == old(files)
              else
                && status == (if disk.Notices(p, data) then StatusNok else StatusOk)
                && files == old(files)[p := Written(old(View()), p, data)]
    {
      var p := PathFor(root, service, fname);
      if p in disk.blocked { return StatusFatal; }
      var good := Write(p, data);
      status := if good then StatusOk else StatusNok;
    }

    /** `BVReceivedFile::Finish`: append, then resize to the advertised size. */
    method Finish(service: Text, fname: Text, data: seq<byte>, fsize: u32) returns (status: Status)
      modifies `files
      ensures var p := PathFor(root, service, fname);
              var written := Written(old(View()), p, data);
              if p in disk.blocked then status == StatusFatal && files == old(files)
              else if p in disk.stuck then status == StatusNok && files == old(files)[p := written]
              else status == StatusOk && files == old(files)[p := Fit(written, fsize)]
    {
      var p := PathFor(root, service, fname);
      if p in disk.blocked { return StatusFatal; }
      var _ := Write(p, data);
      if p in disk.stuck { return StatusNok; }
      files := files[p := Fit(files[p], fsize)];
      status := StatusOk;
    }

    method HandleFileTransferBegin(data: Session.FileData) returns (status: Status)
      requires !failed
      modifies `files, `fileTransferData
      ensures status == StatusOk <==> !OnBegin(root, old(View()), data).failed
      ensures View() == OnBegin(root, old(View()), data).(failed := false)
    {
      var (service, fname) := SplitNames(data.fdata);
      status := Begin(service, fname);
      if status != StatusOk { return; }
      fileTransferData := fileTransferData[data.correlationKey := (service, fname)];
    }

    method HandleFileChunkSent(data: Session.FileData) returns (status: Status)
      requires !failed
      modifies `files
      ensures status == StatusOk <==> !OnChunk(root, old(View()), data).failed
      ensures View() == OnChunk(root, old(View()), data).(failed := false)
    {
      if data.correlationKey !in fileTransferData { return StatusFatal; }
      var (service, fname) := fileTransferData[data.correlationKey];
      status := AppendChunk(service, fname, data.fdata);
    }

    method HandleFileTransferEnd(data: Session.FileData) returns (status: Status)
      requires !failed
      modifies `files, `fileTransferData
      ensures status == StatusOk <==> !OnEnd(root, old(View()), data).failed
      ensures View() == OnEnd(root, old(View()), data).(failed := false)
    {
      if data.correlationKey !in fileTransferData { return StatusFatal; }
      var (service, fname) := fileTransferData[data.correlationKey];
      status := Finish(service, fname, data.fdata, data.fsize);
      if status != StatusOk { return; }
      fileTransferData := fileTransferData - {data.correlationKey};
    }

    /** `ListenToMail` on the messages the sessions have posted. */
    method ListenToMail(mail: seq<Session.Action>)
      requires !failed
      modifies this
      ensures View() == HandleAll(root, old(View()), mail)
    {
      hide OnBegin, OnChunk, OnEnd;
      var i := 0;
      while i < |mail| && !failed
        invariant 0 <= i <= |mail|
        invariant HandleAll(root, old(View()), mail) == HandleAll(root, View(), mail[i..])
      {
        var status := StatusOk;
        ghost var before := View();
        match mail[i] {
          case TransferBegin(data) => status := HandleFileTransferBegin(data);
          case ChunkReceived(data) => status := HandleFileChunkSent(data);
          case TransferEnd(data) => status := HandleFileTransferEnd(data);
          case _ =>
        }
        if status != StatusOk { failed := true; }
        assert View() == Handle(root, before, mail[i]);
        assert mail[i..][1..] == mail[i + 1..];
        i := i + 1;
      }
      FailedSticks(root, View(), mail[i..]);
    }
  }

  lemma {:induction false} FailedSticks(root: Path, a: AppState, acts: seq<Session.Action>)
    ensures a.failed || acts == [] ==> HandleAll(root, a, acts) == a
    decreases |acts|
  {
    if a.failed && acts != [] {
      FailedSticks(root, a, acts[1..]);
    }
  }
}
