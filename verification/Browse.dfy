/** Browse results: the 64-byte padded record a callback writes, its way through the linked
    list, and the list of instances read back from it. */
module Browse {
  import opened Bytes
  import opened LinkedList

  const SERVNAME: nat := 24
  const REGTYPE: nat := 24
  const REPLDOMN: nat := 16
  const RECORD: nat := 64
  const MAX_DATA: nat := 256

  datatype Instance = Instance(serviceName: Text, regType: Text, replyDomain: Text)

  /** One invocation of the browse callback; the names are C strings. */
  datatype Reply = Reply(error: bool, add: bool, serviceName: Text, regType: Text, replyDomain: Text)

  predicate IsCString(s: Text) {
    NUL !in s
  }

  predicate WellTyped(r: Reply) {
    IsCString(r.serviceName) && IsCString(r.regType) && IsCString(r.replyDomain)
  }

  function Spaces(n: nat): (r: Text)
    ensures |r| == n && forall i :: 0 <= i < n ==> r[i] == SPACE
  {
    seq(n, i => SPACE)
  }

  /** A field: the text followed by spaces, or only spaces when the text is too long. */
  function Field(text: Text, limit: nat): (r: Text)
    ensures |r| == limit
  {
    if |text| < limit then text + Spaces(limit - |text|) else Spaces(limit)
  }

  function Record(r: Reply): (buf: Text)
    ensures |buf| == RECORD
  {
    (Field(r.serviceName, SERVNAME) + Field(r.regType, REGTYPE) + Field(r.replyDomain, REPLDOMN))[RECORD - 1 := NUL]
  }

  /** The list element's data after `strncpy`: the record up to its NUL, then zeros. */
  function ElementData(r: Reply): (d: Text)
    ensures |d| == MAX_DATA
  {
    Fit(Record(r)[..RECORD - 1], MAX_DATA)
  }

  // ---------------------------------------------------------------------- reading back

  function Clean(s: Text): Text {
    Without(Without(s, SPACE), NUL)
  }

  function ReadRecord(d: Text): Instance
    requires |d| == MAX_DATA
  {
    Instance(Clean(d[..SERVNAME]), Clean(d[SERVNAME..SERVNAME + REGTYPE]), Clean(d[SERVNAME + REGTYPE..RECORD]))
  }

  lemma {:induction false} WithoutAppend(a: Text, b: Text, c: byte)
    ensures Without(a + b, c) == Without(a, c) + Without(b, c)
  {
    if a == [] {
      assert a + b == b;
      assert [] + Without(b, c) == Without(b, c);
    } else {
      WithoutAppend(a[1..], b, c);
      assert (a + b)[0] == a[0] && (a + b)[1..] == a[1..] + b;
      Assoc([a[0]], Without(a[1..], c), Without(b, c));
    }
  }

  lemma {:induction false} WithoutAllOf(s: Text, c: byte)
    requires forall i :: 0 <= i < |s| ==> s[i] == c
    ensures Without(s, c) == []
  {
    if s != [] {
      WithoutAllOf(s[1..], c);
    }
  }

  lemma {:induction false} WithoutAbsent(s: Text, c: byte)
    requires c !in s
    ensures Without(s, c) == s
  {
    if s != [] {
      assert s[0] in s;
      WithoutAbsent(s[1..], c);
    }
  }

  /** What a field should read back as. */
  function Expected(text: Text, limit: nat): Text {
    if |text| < limit then Without(text, SPACE) else []
  }

  lemma CleanPadded(text: Text, n: nat)
    requires IsCString(text)
    ensures Clean(text + Spaces(n)) == Without(text, SPACE)
  {
    WithoutAppend(text, Spaces(n), SPACE);
    WithoutAllOf(Spaces(n), SPACE);
    assert Without(text, SPACE) + [] == Without(text, SPACE);
    WithoutAbsent(Without(text, SPACE), NUL);
  }

  lemma CleanField(text: Text, limit: nat)
    requires IsCString(text)
    ensures Clean(Field(text, limit)) == Expected(text, limit)
  {
    if |text| < limit {
      CleanPadded(text, limit - |text|);
    } else {
      CleanPadded([], limit);
      assert [] + Spaces(limit) == Spaces(limit);
    }
  }

  /** The last field, whose last byte became the terminator. */
  lemma CleanLastField(text: Text, limit: nat)
    requires IsCString(text) && limit > 0
    ensures Clean(Field(text, limit)[..limit - 1] + [NUL]) == Expected(text, limit)
  {
    var front := Field(text, limit)[..limit - 1];
    var shown := if |text| < limit then text else [];
    assert front == shown + Spaces(limit - 1 - |shown|);
    WithoutAppend(front, [NUL], SPACE);
    WithoutAppend(Without(front, SPACE), Without([NUL], SPACE), NUL);
    CleanPadded(shown, limit - 1 - |shown|);
    assert Without([NUL], SPACE) == [NUL] && Without([NUL], NUL) == [];
  }

  function ExpectedInstance(r: Reply): Instance {
    Instance(Expected(r.serviceName, SERVNAME), Expected(r.regType, REGTYPE), Expected(r.replyDomain, REPLDOMN))
  }

  lemma FieldSlices(f: Text, g: Text, h: Text)
    requires |f| == SERVNAME && |g| == REGTYPE && |h| == REPLDOMN
    ensures var d := Fit((f + g + h)[RECORD - 1 := NUL][..RECORD - 1], MAX_DATA);
            && d[..SERVNAME] == f && d[SERVNAME..SERVNAME + REGTYPE] == g
            && d[SERVNAME + REGTYPE..RECORD] == h[..REPLDOMN - 1] + [NUL]
  {
    var d := Fit((f + g + h)[RECORD - 1 := NUL][..RECORD - 1], MAX_DATA);
    assert forall i :: 0 <= i < SERVNAME ==> d[i] == f[i];
    assert forall i :: 0 <= i < REGTYPE ==> d[SERVNAME + i] == (f + g + h)[SERVNAME + i] == g[i];
    assert forall i :: 0 <= i < REPLDOMN - 1 ==> d[SERVNAME + REGTYPE + i] == (f + g + h)[SERVNAME + REGTYPE + i] == h[i];
    assert d[RECORD - 1] == NUL;
  }

  /** A record reads back field by field: a text shorter than its limit comes back without its
      spaces, a longer one as the empty text, and no field spills into the next. */
  lemma RecordRoundTrip(r: Reply)
    requires WellTyped(r)
    ensures ReadRecord(ElementData(r)) == ExpectedInstance(r)
  {
    hide Clean, Field;
    var f, g, h := Field(r.serviceName, SERVNAME), Field(r.regType, REGTYPE), Field(r.replyDomain, REPLDOMN);
    FieldSlices(f, g, h);
    CleanField(r.serviceName, SERVNAME);
    CleanField(r.regType, REGTYPE);
    CleanLastField(r.replyDomain, REPLDOMN);
  }

  /** Where the fields lie: the name at 0, the type at 24, the domain at 48, each followed by
      spaces or left blank if too long, and a NUL at 63. */
  lemma RecordLayout(r: Reply)
    ensures var b := Record(r);
            && (|r.serviceName| < 24 ==> b[..|r.serviceName|] == r.serviceName)
            && (|r.regType| < 24 ==> b[24..24 + |r.regType|] == r.regType)
            && (|r.replyDomain| < 16 ==> b[48..48 + |r.replyDomain|] == r.replyDomain)
            && (forall i :: (if |r.serviceName| < 24 then |r.serviceName| else 0) <= i < 24 ==> b[i] == 32)
            && (forall i :: (if |r.regType| < 24 then 24 + |r.regType| else 24) <= i < 48 ==> b[i] == 32)
            && (forall i :: (if |r.replyDomain| < 16 then 48 + |r.replyDomain| else 48) <= i < 63 ==> b[i] == 32)
            && b[63] == 0
  {
    hide Field;
    var f, g, h := Field(r.serviceName, SERVNAME), Field(r.regType, REGTYPE), Field(r.replyDomain, REPLDOMN);
    var b := Record(r);
    FieldLayout(r.serviceName, SERVNAME);
    FieldLayout(r.regType, REGTYPE);
    FieldLayout(r.replyDomain, REPLDOMN);
    assert forall i :: 0 <= i < 24 ==> b[i] == f[i];
    assert forall i :: 24 <= i < 48 ==> b[i] == g[i - 24];
    assert forall i :: 48 <= i < 63 ==> b[i] == h[i - 48];
  }

  lemma FieldLayout(text: Text, limit: nat)
    ensures var f := Field(text, limit);
            && (|text| < limit ==> forall i :: 0 <= i < |text| ==> f[i] == text[i])
            && forall i :: (if |text| < limit then |text| else 0) <= i < limit ==> f[i] == SPACE
  {
  }

  // ------------------------------------------------------------------- the C functions

  /** Copies a text into the buffer at `at` if it is shorter than its field. */
  method CopyField(buff: array<byte>, at: nat, text: Text, limit: nat)
    requires at + limit <= buff.Length
    requires forall i :: at <= i < at + limit ==> buff[i] == SPACE
    modifies buff
    ensures buff[at..at + limit] == Field(text, limit)
    ensures forall i :: 0 <= i < buff.Length && !(at <= i < at + limit) ==> buff[i] == old(buff[i])
  {
    if |text| < limit {
      for i := 0 to |text|
        invariant forall j :: 0 <= j < i ==> buff[at + j] == text[j]
        invariant forall j :: at + i <= j < at + limit ==> buff[j] == SPACE
        invariant forall j :: 0 <= j < buff.Length && !(at <= j < at + limit) ==> buff[j] == old(buff[j])
      {
        buff[at + i] := text[i];
      }
    }
    assert forall i :: 0 <= i < limit ==> buff[at..at + limit][i] == Field(text, limit)[i];
  }

  /** The record part of `C_ServiceBrowseReply`. */
  method FillRecord(r: Reply) returns (record: Text)
    ensures record == Record(r)
  {
    hide Field;
    var buff := new byte[RECORD];
    for i := 0 to RECORD
      invariant forall j :: 0 <= j < i ==> buff[j] == SPACE
    {
      buff[i] := SPACE;
    }
    CopyField(buff, 0, r.serviceName, SERVNAME);
    CopyField(buff, SERVNAME, r.regType, REGTYPE);
    assert buff[0..SERVNAME] == Field(r.serviceName, SERVNAME);
    CopyField(buff, SERVNAME + REGTYPE, r.replyDomain, REPLDOMN);
    assert buff[0..SERVNAME] == Field(r.serviceName, SERVNAME);
    assert buff[SERVNAME..SERVNAME + REGTYPE] == Field(r.regType, REGTYPE);
    assert buff[..] == buff[0..SERVNAME] + buff[SERVNAME..SERVNAME + REGTYPE] + buff[SERVNAME + REGTYPE..RECORD];
    buff[RECORD - 1] := NUL;
    record := buff[..];
  }

  /** Where `strncpy` stops: at the first NUL, or after `n` characters. */
  predicate StopsAt(s: Text, n: nat, k: nat) {
    && k <= n && k <= |s| && (forall i :: 0 <= i < k ==> s[i] != NUL)
    && (k == n || (k < |s| && s[k] == NUL))
  }

  function CopyLength(s: Text, n: nat): (k: nat)
    requires NUL in s || n <= |s|
    ensures StopsAt(s, n, k) && forall l :: StopsAt(s, n, l) ==> l == k
  {
    if n == 0 || s[0] == NUL then 0
    else
      assert s == [s[0]] + s[1..];
      CopyLength(s[1..], n - 1) + 1
  }

  /** The data of a new list element: `strncpy` of a string that is terminated or fills the
      element, or zeros when there is none. */
  method ConstructElement(source: Option<Text>, n: nat) returns (dest: Text)
    requires source.Some? ==> NUL in source.value || n <= |source.value|
    ensures dest == if source.None? then Zeros(n) else Fit(source.value[..CopyLength(source.value, n)], n)
  {
    if source.None? { return Zeros(n); }
    var s, k := source.value, 0;
    while k < n && s[k] != NUL
      invariant k <= n && k <= |s| && forall i :: 0 <= i < k ==> s[i] != NUL
      invariant k < n ==> k < |s|
      decreases n - k
    {
      k := k + 1;
    }
    assert StopsAt(s, n, k);
    dest := Fit(s[..k], n);
  }

  /** Before its last byte a record of C strings has no NUL. */
  lemma NoEarlyNul(r: Reply)
    requires WellTyped(r)
    ensures NUL !in Record(r)[..RECORD - 1] && Record(r)[RECORD - 1] == NUL
  {
    var f, g, h := Field(r.serviceName, SERVNAME), Field(r.regType, REGTYPE), Field(r.replyDomain, REPLDOMN);
    NoNulInField(r.serviceName, SERVNAME);
    NoNulInField(r.regType, REGTYPE);
    NoNulInField(r.replyDomain, REPLDOMN);
    forall i | 0 <= i < RECORD - 1
      ensures Record(r)[i] != NUL
    {
      assert (f + g + h)[i] in f || (f + g + h)[i] in g || (f + g + h)[i] in h;
    }
  }

  lemma NoNulInField(text: Text, limit: nat)
    requires IsCString(text)
    ensures NUL !in Field(text, limit)
  {
  }

  /** `C_ServiceBrowseReply`: an error adds nothing, anything else appends its record. */
  method ServiceBrowseReply(list: List, r: Reply)
    requires list.Valid() && WellTyped(r)
    modifies list, Elements(list.nodes)
    ensures list.Valid()
    ensures fresh(Elements(list.nodes) - Elements(old(list.nodes)))
    ensures list.didRegister == if r.error then old(list.didRegister) else r.add
    ensures DataOf(list.nodes) == DataOf(old(list.nodes)) + if r.error then [] else [ElementData(r)]
  {
    hide ElementData, Record;
    if r.error {
      assert DataOf(list.nodes) + [] == DataOf(list.nodes);
      return;
    }
    list.didRegister := r.add;
    var record := FillRecord(r);
    NoEarlyNul(r);
    assert StopsAt(record, MAX_DATA, RECORD - 1) by {
      assert forall i :: 0 <= i < RECORD - 1 ==> record[..RECORD - 1][i] == record[i];
    }
    var data := ConstructElement(Some(record), MAX_DATA);
    IsElementData(r);
    var node := new Node(data);
    list.live := list.live + {node};
    list.AddElement(node, [node]);
  }

  lemma IsElementData(r: Reply)
    ensures ElementData(r) == Fit(Record(r)[..RECORD - 1], MAX_DATA)
  {
  }

  ghost predicate Readable(nodes: seq<Node>) {
    forall i :: 0 <= i < |nodes| ==> |nodes[i].data| == MAX_DATA
  }

  lemma SameData(nodes: seq<Node>, data: seq<Text>)
    requires DataOf(nodes) == data
    ensures |nodes| == |data| && forall i :: 0 <= i < |nodes| ==> nodes[i].data == data[i]
  {
    assert forall i :: 0 <= i < |nodes| ==> DataOf(nodes)[i] == nodes[i].data;
  }

  /** `ReturnListFromBrowseResults`. */
  method ReturnList(list: List) returns (instances: seq<Instance>)
    requires list.Valid() && Readable(list.nodes)
    ensures |instances| == |list.nodes|
    ensures forall i :: 0 <= i < |list.nodes| ==> instances[i] == ReadRecord(list.nodes[i].data)
  {
    hide ReadRecord;
    instances := [];
    var cursor := list.head;
    ghost var k := 0;
    while cursor != null
      invariant 0 <= k <= |list.nodes| && cursor == NodeAt(list.nodes, k) && |instances| == k
      invariant forall i :: 0 <= i < k ==> instances[i] == ReadRecord(list.nodes[i].data)
      decreases |list.nodes| - k
    {
      instances := instances + [ReadRecord(cursor.data)];
      cursor := cursor.next;
      k := k + 1;
    }
  }

  /** The replies that were not errors. */
  function Good(replies: seq<Reply>): seq<Reply> {
    if replies == [] then []
    else
      var rest := Good(replies[..|replies| - 1]);
      if replies[|replies| - 1].error then rest else rest + [replies[|replies| - 1]]
  }

  ghost function Encoded(replies: seq<Reply>): (r: seq<Text>)
    ensures |r| == |replies|
    ensures forall i :: 0 <= i < |replies| ==> r[i] == ElementData(replies[i])
  {
    seq(|replies|, i requires 0 <= i < |replies| => ElementData(replies[i]))
  }

  lemma GoodStep(replies: seq<Reply>, i: nat)
    requires i < |replies|
    ensures Good(replies[..i + 1]) == if replies[i].error then Good(replies[..i]) else Good(replies[..i]) + [replies[i]]
  {
    assert replies[..i + 1][..i] == replies[..i];
  }

  lemma {:induction false} GoodAreReplies(replies: seq<Reply>)
    requires forall i :: 0 <= i < |replies| ==> WellTyped(replies[i])
    ensures forall j :: 0 <= j < |Good(replies)| ==> WellTyped(Good(replies)[j])
  {
    if replies != [] {
      GoodAreReplies(replies[..|replies| - 1]);
    }
  }

  /** A whole batch: for every sequence of callbacks the list read back has one instance per
      good callback, in order, each field as it should read back. */
  method BrowseBatch(replies: seq<Reply>) returns (instances: seq<Instance>)
    requires forall i :: 0 <= i < |replies| ==> WellTyped(replies[i])
    ensures |instances| == |Good(replies)|
    ensures forall j :: 0 <= j < |instances| ==> instances[j] == ExpectedInstance(Good(replies)[j])
  {
    hide ElementData, ReadRecord, ExpectedInstance, Good, WellTyped;
    var list := new List(null, []);
    NoReplies();
    for i := 0 to |replies|
      invariant list.Valid() && fresh(list) && fresh(Elements(list.nodes))
      invariant DataOf(list.nodes) == Encoded(Good(replies[..i]))
    {
      GoodStep(replies, i);
      ServiceBrowseReply(list, replies[i]);
    }
    assert replies[..|replies|] == replies;
    assert Readable(list.nodes) by { SameData(list.nodes, Encoded(Good(replies))); }
    instances := ReturnList(list);
    GoodAreReplies(replies);
    forall j | 0 <= j < |instances|
      ensures instances[j] == ExpectedInstance(Good(replies)[j])
    {
      RecordRoundTrip(Good(replies)[j]);
    }
  }

  lemma NoReplies()
    ensures Good([]) == []
  {
  }
}
