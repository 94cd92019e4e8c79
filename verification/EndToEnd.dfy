/** File received equals file sent: from the sender's worker over the byte stream, through
    the receiving session and the mailbox, to the rebuilt file. */
module EndToEnd {
  import opened Bytes
  import opened Wire
  import opened Sender
  import opened Session
  import opened Stream
  import opened SessionObject
  import App

  function Destination(root: Path, job: Job): Path {
    App.PathFor(root, job.service, job.name)
  }

  /** The transfer is understood and nothing has failed so far. */
  predicate Announced(a: App.AppState, job: Job) {
    Startable(job) && BAR !in job.service && !a.failed
  }

  /** The receiving application can take this transfer. */
  predicate Receivable(root: Path, a: App.AppState, job: Job) {
    Announced(a, job) && a.disk.Usable(Destination(root, job))
  }

  // ---------------------------------------------------------------- rebuilding a file

  /** The application after the data frames of a transfer writing to `p`. */
  function Rebuilt(a: App.AppState, job: Job, p: Path, frames: seq<DataFrame>): App.AppState
    requires p in a.files
  {
    var bytes := a.files[p] + Payloads(frames);
    if EndsTransfer(frames) then
      a.(files := a.files[p := Fit(bytes, job.FileSize())], transfers := a.transfers - {job.key})
    else a.(files := a.files[p := bytes])
  }

  lemma {:induction false} DataHandled(root: Path, a: App.AppState, job: Job, p: Path, frames: seq<DataFrame>)
    requires !a.failed && job.key in a.transfers && App.Target(root, a, job.key) == p
    requires a.disk.Usable(p) && p in a.files && DataRun(job, frames)
    ensures App.HandleAll(root, a, DataActions(job, frames)) == Rebuilt(a, job, p, frames)
    decreases |frames|
  {
    hide Fit, ChunkSize, App.PathFor;
    if frames == [] {
      assert a.files[p] + [] == a.files[p];
      assert a.files[p := a.files[p]] == a.files;
    } else {
      var f, tail := frames[0], frames[1..];
      var acts := DataActions(job, frames);
      assert acts[0] == DataAction(job, f) && acts[1..] == DataActions(job, tail);
      var b := App.Handle(root, a, acts[0]);
      Assoc(a.files[p], f.payload, Payloads(tail));
      if tail == [] {
        assert f.payload + [] == f.payload;
        assert App.HandleAll(root, b, []) == b;
      } else {
        DataHandled(root, b, job, p, tail);
        var bytes := a.files[p] + f.payload + Payloads(tail);
        assert a.files[p := a.files[p] + f.payload][p := bytes] == a.files[p := bytes];
      }
    }
  }

  /** Every transfer, of any size: whatever was at the destination before, the file becomes
      the payloads written after BEGIN, trimmed to the announced size if an END came. */
  lemma TransferHandled(root: Path, a: App.AppState, job: Job)
    requires Receivable(root, a, job)
    ensures var p, frames := Destination(root, job), Work(job, 0, 0, 1).frames;
            App.HandleAll(root, a, TransferActions(job)) ==
            if EndsTransfer(frames) then
              a.(files := a.files[p := Fit(Payloads(frames), job.FileSize())], transfers := a.transfers - {job.key})
            else
              a.(files := a.files[p := Payloads(frames)],
                 transfers := a.transfers[job.key := (job.service, job.name)])
  {
    hide Work, Fit, ChunkSize, App.PathFor, App.SplitNames;
    var p, frames := Destination(root, job), Work(job, 0, 0, 1).frames;
    var acts := TransferActions(job);
    assert acts[1..] == DataActions(job, frames);
    App.SplitNamesRoundTrip(job.service, job.name);
    var b := App.Handle(root, a, acts[0]);
    assert b == a.(files := a.files[p := []], transfers := a.transfers[job.key := (job.service, job.name)]);
    DataHandled(root, b, job, p, frames);
    assert [] + Payloads(frames) == Payloads(frames);
    assert a.files[p := []][p := Payloads(frames)] == a.files[p := Payloads(frames)];
    var fit := Fit(Payloads(frames), job.FileSize());
    assert a.files[p := []][p := fit] == a.files[p := fit];
    assert a.transfers[job.key := (job.service, job.name)] - {job.key} == a.transfers - {job.key};
  }

  /** For a sendable size that is the file itself. */
  lemma CompleteTransferHandled(root: Path, a: App.AppState, job: Job)
    requires Receivable(root, a, job) && 1 <= |job.content| <= LARGEST_SENDABLE
    ensures App.HandleAll(root, a, TransferActions(job))
         == a.(files := a.files[Destination(root, job) := job.content], transfers := a.transfers - {job.key})
  {
    hide Work, ChunkSize, App.HandleAll;
    TransferHandled(root, a, job);
    SenderCompletes(job);
    assert Fit(Payloads(Work(job, 0, 0, 1).frames), |job.content|) == job.content;
  }

  /** A destination that takes no data, with chunks too small for the stream to notice: nothing
      of the data frames is kept, and nothing fails. */
  lemma {:induction false} LostData(root: Path, a: App.AppState, job: Job, p: Path, frames: seq<DataFrame>)
    requires !a.failed && job.key in a.transfers && App.Target(root, a, job.key) == p && p in a.files
    requires p in a.disk.full && p !in a.disk.blocked && p !in a.disk.stuck && job.Chunk() < a.disk.buffer
    requires DataRun(job, frames)
    ensures App.HandleAll(root, a, DataActions(job, frames)) ==
            if EndsTransfer(frames) then
              a.(files := a.files[p := Fit(a.files[p], job.FileSize())], transfers := a.transfers - {job.key})
            else a
    decreases |frames|
  {
    hide Fit, ChunkSize, App.PathFor;
    if frames != [] {
      var f, tail := frames[0], frames[1..];
      var acts := DataActions(job, frames);
      assert acts[0] == DataAction(job, f) && acts[1..] == DataActions(job, tail);
      assert a.files[p := a.files[p]] == a.files;
      if tail == [] {
        assert App.HandleAll(root, App.Handle(root, a, acts[0]), []) == App.Handle(root, a, acts[0]);
      } else {
        assert App.Handle(root, a, acts[0]) == a;
        LostData(root, a, job, p, tail);
      }
    }
  }

  /** What happens to a transfer whose destination takes no data: it fails if and only if it has
      more than one frame and its chunks are large enough for the stream to notice; otherwise it
      is taken for finished, with zeros in place of its bytes. */
  lemma FullDiskHandled(root: Path, a: App.AppState, job: Job)
    requires Announced(a, job) && 1 <= |job.content| <= LARGEST_SENDABLE && Destination(root, job) in a.disk.full
    requires Destination(root, job) !in a.disk.blocked && Destination(root, job) !in a.disk.stuck
    ensures var p := Destination(root, job);
            var b := App.HandleAll(root, a, TransferActions(job));
            && (b.failed <==> CeilDiv(|job.content|, job.Chunk()) > 1 && job.Chunk() >= a.disk.buffer)
            && (!b.failed ==> job.key !in b.transfers && App.Contents(b, p) == Zeros(|job.content|))
  {
    hide Work, ChunkSize, App.PathFor, App.SplitNames;
    var p := Destination(root, job);
    SenderCompletes(job);
    var frames := Work(job, 0, 0, 1).frames;
    var acts := TransferActions(job);
    App.SplitNamesRoundTrip(job.service, job.name);
    var b := App.Handle(root, a, acts[0]);
    assert b == a.(files := a.files[p := []], transfers := a.transfers[job.key := (job.service, job.name)]);
    assert acts[1..] == DataActions(job, frames);
    assert Fit([], |job.content|) == Zeros(|job.content|);
    if job.Chunk() < a.disk.buffer {
      LostData(root, b, job, p, frames);
    } else {
      assert acts[1..][0] == DataAction(job, frames[0]);
      var c := App.Handle(root, b, acts[1..][0]);
      App.FailedSticks(root, c, acts[1..][1..]);
      if |frames| == 1 {
        assert acts[1..][1..] == [];
      }
    }
  }

  /** A destination that cannot be resized: the END fails, if no CHUNK has before. */
  lemma {:induction false} StuckFails(root: Path, a: App.AppState, job: Job, p: Path, frames: seq<DataFrame>)
    requires !a.failed && job.key in a.transfers && App.Target(root, a, job.key) == p
    requires p in a.disk.stuck && DataRun(job, frames) && EndsTransfer(frames)
    ensures App.HandleAll(root, a, DataActions(job, frames)).failed
    decreases |frames|
  {
    hide Fit, ChunkSize, App.PathFor;
    var f, tail := frames[0], frames[1..];
    var acts := DataActions(job, frames);
    assert acts[0] == DataAction(job, f) && acts[1..] == DataActions(job, tail);
    var b := App.Handle(root, a, acts[0]);
    if b.failed {
      App.FailedSticks(root, b, acts[1..]);
    } else {
      StuckFails(root, b, job, p, tail);
    }
  }

  /** For every destination on every disk: a transfer fails if and only if the destination cannot
      be opened or resized, or refuses data and the stream notices it before the last frame. A
      transfer that is taken for finished has left the right file if and only if the disk took
      the data, or the file consists of zeros. */
  lemma FinishedMeansIntactExactly(root: Path, a: App.AppState, job: Job)
    requires Announced(a, job) && 1 <= |job.content| <= LARGEST_SENDABLE
    ensures var p, n := Destination(root, job), |job.content|;
            var b := App.HandleAll(root, a, TransferActions(job));
            var reported := p in a.disk.full && CeilDiv(n, job.Chunk()) > 1 && job.Chunk() >= a.disk.buffer;
            && (b.failed <==> p in a.disk.blocked || p in a.disk.stuck || reported)
            && (p in a.disk.blocked ==> b == a.(failed := true))
            && (!b.failed ==> job.key !in b.transfers)
            && ((!b.failed ==> App.Contents(b, p) == job.content) <==>
                  (b.failed || p !in a.disk.full || job.content == Zeros(n)))
  {
    hide Work, ChunkSize, App.PathFor, CeilDiv, App.SplitNames;
    var p := Destination(root, job);
    var acts := TransferActions(job);
    App.SplitNamesRoundTrip(job.service, job.name);
    if p in a.disk.blocked {
      App.FailedSticks(root, a.(failed := true), acts[1..]);
    } else if p in a.disk.stuck {
      var frames := Work(job, 0, 0, 1).frames;
      SenderCompletes(job);
      assert acts[1..] == DataActions(job, frames);
      StuckFails(root, App.Handle(root, a, acts[0]), job, p, frames);
    } else if p in a.disk.full {
      FullDiskHandled(root, a, job);
    } else {
      CompleteTransferHandled(root, a, job);
    }
  }

  /** With a buffer of more than 4096 bytes, every file below 64000 bytes that is sent to a full
      disk is taken for received, and holds zeros. */
  lemma SmallFilesLostSilently(root: Path, a: App.AppState, job: Job)
    requires Announced(a, job) && 1 <= |job.content| < 64000 && a.disk.buffer > 4096
    requires Destination(root, job) in a.disk.full
    requires Destination(root, job) !in a.disk.blocked && Destination(root, job) !in a.disk.stuck
    ensures !App.HandleAll(root, a, TransferActions(job)).failed
    ensures App.Contents(App.HandleAll(root, a, TransferActions(job)), Destination(root, job)) == Zeros(|job.content|)
  {
    hide Work, App.PathFor, App.HandleAll, TransferActions, CeilDiv;
    if job.Chunk() > 4096 {
      CeilDivOne(|job.content|, job.Chunk());
    }
    FullDiskHandled(root, a, job);
  }

  // ----------------------------------------------------------------------- integrity

  /** What the session hands over while it reads the sender's bytes. */
  lemma WholeStream(s: Session, job: Job, present: set<Text>)
    requires Ready(s) && Startable(job)
    ensures var (t, rest) := Receive(s, WireBytes(job), present);
            && rest == [] && s.log <= t.log && t.log[|s.log|..] == TransferActions(job)
            && (Ready(t) <==> EndsTransfer(Work(job, 0, 0, 1).frames))
  {
    hide Work, ChunkSize, WireBytes;
    var frames := Work(job, 0, 0, 1).frames;
    assert WireBytes(job) + [] == WireBytes(job);
    ReceiveTransfer(s, job, [], present);
    var t := AfterData(Receiving(s, job), job, frames);
    assert t.pending[0] == FrameRead <==> EndsTransfer(frames);
    assert t.log == s.log + TransferActions(job);
  }

  /** End-to-end integrity: for every content of a sendable size, every leftover at the
      destination and every other file, the sender's bytes, read by the session and handled
      in mailbox order, leave exactly the content at the destination, touch nothing else, and
      leave the session ready for the next frame. */
  lemma FileArrivesIntact(s: Session, job: Job, root: Path, a: App.AppState, present: set<Text>)
    requires Ready(s) && Receivable(root, a, job) && 1 <= |job.content| <= LARGEST_SENDABLE
    ensures var (t, rest) := Receive(s, WireBytes(job), present);
            && Ready(t) && rest == [] && s.log <= t.log
            && App.HandleAll(root, a, t.log[|s.log|..])
            == a.(files := a.files[Destination(root, job) := job.content], transfers := a.transfers - {job.key})
  {
    hide Work, ChunkSize, App.HandleAll, Receive, TransferActions;
    WholeStream(s, job, present);
    SenderCompletes(job);
    CompleteTransferHandled(root, a, job);
  }

  /** A file of 2^32 bytes or more, if its size modulo 2^32 is sendable: the transfer ends like any
      other and is taken for finished, but only that many bytes of the file have arrived. */
  lemma LargeFileIsCut(s: Session, job: Job, root: Path, a: App.AppState, present: set<Text>)
    requires Ready(s) && Receivable(root, a, job)
    requires |job.content| >= TWO32 && 1 <= |job.content| % TWO32 <= LARGEST_SENDABLE
    ensures var (t, rest) := Receive(s, WireBytes(job), present);
            && Ready(t) && rest == [] && s.log <= t.log
            && var b := App.HandleAll(root, a, t.log[|s.log|..]);
               && !b.failed && job.key !in b.transfers
               && App.Contents(b, Destination(root, job)) == job.content[..|job.content| % TWO32]
  {
    hide Work, ChunkSize, App.HandleAll, Receive, TransferActions, Boundary;
    var n := |job.content| % TWO32;
    assert Boundary(0, job.Chunk()) by { ZeroBoundary(job.Chunk()); }
    WorkTruncated(job, 0, 1);
    WholeStream(s, job, present);
    TransferHandled(root, a, job);
    var payloads := Payloads(Work(job, 0, 0, 1).frames);
    FitCuts(payloads, n);
    assert job.content[0..n] == job.content[..n];
  }

  lemma ZeroBoundary(c: nat)
    requires c > 0
    ensures Boundary(0, c)
  {
  }

  /** The same with the path written out: for plain names the content is found at
      root/data/service/name. */
  lemma FileArrivesAt(s: Session, job: Job, root: Path, a: App.AppState, present: set<Text>)
    requires Ready(s) && Receivable(root, a, job) && 1 <= |job.content| <= LARGEST_SENDABLE
    requires App.RootPath(root) && App.Plain(job.service) && App.Plain(job.name)
    ensures var t := Receive(s, WireBytes(job), present).0;
            && s.log <= t.log
            && App.HandleAll(root, a, t.log[|s.log|..]).files
            == a.files[root + [47, 100, 97, 116, 97, 47] + job.service + [47] + job.name := job.content]
  {
    hide Work, ChunkSize, App.HandleAll, Receive, WireBytes;
    FileArrivesIntact(s, job, root, a, present);
    App.PathLayout(root, job.service, job.name);
    assert root + [SLASH] + App.DATA + [SLASH] == root + [47, 100, 97, 116, 97, 47];
  }

  /** And exactly for those sizes: for every content at all, the file arrives with the session
      ready for more if and only if its size is between 1 and the limit. */
  lemma DeliveredExactlyWhenSendable(s: Session, job: Job, root: Path, a: App.AppState, present: set<Text>)
    requires Ready(s) && Receivable(root, a, job)
    ensures var t := Receive(s, WireBytes(job), present).0;
            && s.log <= t.log
            && var b := App.HandleAll(root, a, t.log[|s.log|..]);
               ((Ready(t) && App.Contents(b, Destination(root, job)) == job.content)
                <==> 1 <= |job.content| <= LARGEST_SENDABLE)
  {
    hide Work, ChunkSize, App.HandleAll, Receive, TransferActions;
    WholeStream(s, job, present);
    TransferHandled(root, a, job);
    EndsExactlyWhenSendable(job);
    if 1 <= |job.content| <= LARGEST_SENDABLE {
      CompleteTransferHandled(root, a, job);
    }
  }

  /** The same with the three objects at work: the worker, the session and the client. */
  method SendFile(job: Job, session: TcpSession, client: App.Client)
    requires session.Valid() && Ready(session.View())
    requires Receivable(client.root, client.View(), job) && 1 <= |job.content| <= LARGEST_SENDABLE
    modifies session, client
    ensures session.Valid() && Ready(session.View())
    ensures client.files == old(client.files)[Destination(client.root, job) := job.content]
    ensures client.fileTransferData == old(client.fileTransferData) - {job.key} && !client.failed
  {
    hide Work, ChunkSize, App.HandleAll, Receive, TransferActions, WireBytes;
    FileArrivesIntact(session.View(), job, client.root, client.View(), {});
    var context := new FileTransferContext(job);
    context.Launch();
    var seen := |session.log|;
    var rest := session.Pump(context.wire, {});
    client.ListenToMail(session.log[seen..]);
  }
}
