/**
  Narration files and their rows (BookAudioStore), for one book: an MP3 per node on disk and a
  book_audio row naming it. A store is three separate effects, and a worker can die between them.
 */
module AudioStore {
  import opened Common
  import Decimal

  datatype AudioRow = AudioRow(filename: string, sourceHash: string, chars: nat)

  /** The book's audio directory, and its rows by node id. */
  datatype Disk = Disk(files: map<string, string>, rows: map<string, AudioRow>)

  predicate SafeChar(c: char) {
    'a' <= c <= 'z' || 'A' <= c <= 'Z' || '0' <= c <= '9' || c == '_' || c == '-'
  }

  /** preg_replace('/[^a-zA-Z0-9_-]/', '', ...). */
  function Sanitized(nodeId: string): string {
    if nodeId == "" then ""
    else (if SafeChar(nodeId[0]) then [nodeId[0]] else "") + Sanitized(nodeId[1..])
  }

  function HashPrefix(sourceHash: string): string {
    if |sourceHash| <= 8 then sourceHash else sourceHash[..8]
  }

  function FilenameFor(nodeId: string, sourceHash: string): string {
    Sanitized(nodeId) + "-" + HashPrefix(sourceHash) + ".mp3"
  }

  /** A SHA-256 in hexadecimal. */
  predicate IsHash(h: string) {
    |h| == 64 && forall c | c in h :: '0' <= c <= '9' || 'a' <= c <= 'f'
  }

  /** assertSafeFilename. */
  predicate SafeFilename(f: string) {
    && f != "" && '/' !in f && '\\' !in f
    && forall i | 0 <= i < |f| - 1 :: !(f[i] == '.' && f[i + 1] == '.')
  }

  /** One call of putNodeAudio. */
  datatype Put = Put(nodeId: string, bytes: string, sourceHash: string, chars: nat) {
    function Filename(): string {
      FilenameFor(nodeId, sourceHash)
    }

    function Row(): AudioRow {
      AudioRow(Filename(), sourceHash, chars)
    }
  }

  function PreviousFile(d: Disk, put: Put): Option<string> {
    if put.nodeId in d.rows then Some(d.rows[put.nodeId].filename) else None
  }

  /** The store after the file has been moved in place (1), the row upserted (2), the superseded file deleted (3). */
  function AfterSteps(d: Disk, put: Put, k: nat): Disk {
    var moved := d.(files := d.files[put.Filename() := put.bytes]);
    var upserted := moved.(rows := d.rows[put.nodeId := put.Row()]);
    var previous := PreviousFile(d, put);
    if k == 0 then d
    else if k == 1 then moved
    else if k == 2 || previous == None || previous.value == put.Filename() then upserted
    else upserted.(files := upserted.files - {previous.value})
  }

  function AfterPut(d: Disk, put: Put): Disk {
    AfterSteps(d, put, 3)
  }

  /** The store when a series of puts is cut off after n effects in all. */
  function CutOff(d: Disk, puts: seq<Put>, n: nat): Disk
    decreases |puts|
  {
    if puts == [] then d
    else if n < 3 then AfterSteps(d, puts[0], n)
    else CutOff(AfterPut(d, puts[0]), puts[1..], n - 3)
  }

  /** Every row's file is there. */
  ghost predicate Agrees(d: Disk) {
    forall n | n in d.rows :: d.rows[n].filename in d.files
  }

  /** Every row is named after its node and hash, as all puts name them. */
  ghost predicate WellNamed(d: Disk) {
    forall n | n in d.rows :: IsHash(d.rows[n].sourceHash) && d.rows[n].filename == FilenameFor(n, d.rows[n].sourceHash)
  }

  /** No two of the ids become equal when sanitised. */
  ghost predicate SeparateIds(ids: set<string>) {
    forall a, b | a in ids && b in ids && Sanitized(a) == Sanitized(b) :: a == b
  }

  /** The rows of other nodes and the bytes of their files. */
  ghost predicate OthersUntouched(d: Disk, d': Disk, nodeId: string) {
    forall n | n in d.rows && n != nodeId ::
      && n in d'.rows && d'.rows[n] == d.rows[n]
      && (d.rows[n].filename in d.files ==>
            d.rows[n].filename in d'.files && d'.files[d.rows[n].filename] == d.files[d.rows[n].filename])
  }

  class BookAudioStore {
    var files: map<string, string>
    var rows: map<string, AudioRow>

    ghost function State(): Disk
      reads this
    {
      Disk(files, rows)
    }

    method PutNodeAudio(nodeId: string, bytes: string, sourceHash: string, chars: nat) returns (filename: string)
      modifies this
      ensures State() == AfterPut(old(State()), Put(nodeId, bytes, sourceHash, chars))
      ensures filename == FilenameFor(nodeId, sourceHash) && nodeId in rows && rows[nodeId].filename == filename
    {
      filename := FilenameFor(nodeId, sourceHash);
      files := files[filename := bytes];
      var previous := if nodeId in rows then Some(rows[nodeId].filename) else None;
      rows := rows[nodeId := AudioRow(filename, sourceHash, chars)];
      if previous != None && previous.value != filename {
        files := files - {previous.value};
      }
    }

    method ExistingHashes() returns (hashes: map<string, string>)
      ensures hashes == HashesOf(rows)
    {
      hashes := map n | n in rows :: rows[n].sourceHash;
    }

    /** Files first, rows after; an empty list of ids keeps nothing. */
    method PruneToNodeIds(keepNodeIds: set<string>)
      modifies this
      ensures State() == AfterPrune(old(State()), keepNodeIds)
    {
      var stale := set n | n in rows && n !in keepNodeIds :: rows[n].filename;
      while stale != {}
        invariant rows == old(rows)
        invariant stale <= StaleFiles(rows, keepNodeIds)
        invariant files == old(files) - (StaleFiles(rows, keepNodeIds) - stale)
        decreases |stale|
      {
        var filename :| filename in stale;
        files := files - {filename};
        stale := stale - {filename};
      }
      rows := map n | n in rows && n in keepNodeIds :: rows[n];
    }
  }

  function HashesOf(rows: map<string, AudioRow>): map<string, string> {
    map n | n in rows :: rows[n].sourceHash
  }

  function StaleFiles(rows: map<string, AudioRow>, keep: set<string>): set<string> {
    set n | n in rows && n !in keep :: rows[n].filename
  }

  function AfterPrune(d: Disk, keep: set<string>): Disk {
    Disk(d.files - StaleFiles(d.rows, keep), map n | n in d.rows && n in keep :: d.rows[n])
  }

  // File names.

  /** Two stores write the same file exactly when the sanitised ids and the first eight hash characters agree. */
  lemma SameFileIff(a: string, h: string, b: string, g: string)
    requires IsHash(h) && IsHash(g)
    ensures FilenameFor(a, h) == FilenameFor(b, g) <==> Sanitized(a) == Sanitized(b) && HashPrefix(h) == HashPrefix(g)
  {
    var x, y := Sanitized(a), Sanitized(b);
    var s, t := FilenameFor(a, h), FilenameFor(b, g);
    assert |s| == |x| + 13 && |t| == |y| + 13;
    if s == t {
      assert s[..|x|] == x && t[..|y|] == y;
      assert s[|x| + 1..|x| + 9] == HashPrefix(h) && t[|y| + 1..|y| + 9] == HashPrefix(g);
    }
  }

  lemma {:induction false} SanitizedIsSafe(nodeId: string)
    ensures forall c | c in Sanitized(nodeId) :: SafeChar(c)
  {
    if nodeId != "" {
      SanitizedIsSafe(nodeId[1..]);
    }
  }

  /** Every generated name passes the traversal check of path(). */
  lemma FilenameIsSafe(nodeId: string, h: string)
    requires IsHash(h)
    ensures SafeFilename(FilenameFor(nodeId, h))
  {
    SanitizedIsSafe(nodeId);
    var f := FilenameFor(nodeId, h);
    var n := |f| - 4;
    assert f[n..] == ".mp3";
    var stem := Sanitized(nodeId) + "-" + HashPrefix(h);
    forall c | c in stem ensures SafeChar(c) {
      if c in HashPrefix(h) {
        assert c in h;
      }
    }
    assert f == stem + ".mp3" && |stem| == n;
    forall i | 0 <= i < n ensures SafeChar(f[i]) {
      assert f[i] == stem[i] && stem[i] in stem;
    }
    forall i | 0 <= i < |f| ensures f[i] != '/' && f[i] != '\\' && (f[i] == '.' ==> i == n) {
      assert i >= n ==> f[i] == ".mp3"[i - n];
    }
  }

  // Ids and their sanitised forms.

  ghost predicate SafeId(id: string) {
    forall c | c in id :: SafeChar(c)
  }

  lemma {:induction false} SanitizedKeepsSafeIds(id: string)
    requires SafeId(id)
    ensures Sanitized(id) == id
  {
    if id != "" {
      assert id[0] in id && forall c | c in id[1..] :: c in id;
      SanitizedKeepsSafeIds(id[1..]);
      assert id == [id[0]] + id[1..];
    }
  }

  /** Ids of letters, digits, underscores and hyphens are separate, whatever ids they are. */
  lemma SafeIdsAreSeparate(ids: set<string>)
    requires forall id | id in ids :: SafeId(id)
    ensures SeparateIds(ids)
  {
    forall a, b | a in ids && b in ids && Sanitized(a) == Sanitized(b) ensures a == b {
      SanitizedKeepsSafeIds(a);
      SanitizedKeepsSafeIds(b);
    }
  }

  /** generateNodeId: the book, a time in milliseconds, nine random letters and digits. */
  function GeneratedNodeId(book: string, ms: nat, random: string): string {
    book + "_" + Decimal.Print(ms) + "_" + random
  }

  /** Node ids generated for a book are safe exactly when the book's id and the random part are. */
  lemma GeneratedIdIsSafeIff(book: string, ms: nat, random: string)
    ensures SafeId(GeneratedNodeId(book, ms, random)) <==> SafeId(book) && SafeId(random)
  {
    var id, digits := GeneratedNodeId(book, ms, random), Decimal.Print(ms);
    assert forall c :: c in id <==> c in book || c == '_' || c in digits || c in random;
    forall c | c in digits ensures SafeChar(c) {
      assert c in Decimal.DIGITS;
    }
  }

  // Agreement at every point.

  /** Another node whose row names the file this node would have for this hash. */
  ghost predicate SharesFile(d: Disk, other: string, nodeId: string, hash: string) {
    && other in d.rows && other != nodeId
    && Sanitized(other) == Sanitized(nodeId) && HashPrefix(d.rows[other].sourceHash) == HashPrefix(hash)
  }

  /** The put supersedes a file that another node's row names as well. */
  ghost predicate Collides(d: Disk, put: Put) {
    && put.nodeId in d.rows && HashPrefix(d.rows[put.nodeId].sourceHash) != HashPrefix(put.sourceHash)
    && exists n | n in d.rows :: SharesFile(d, n, put.nodeId, d.rows[put.nodeId].sourceHash)
  }

  /** The put gives other bytes to a file that another node's row names. */
  ghost predicate Overwrites(d: Disk, put: Put) {
    && put.Filename() in d.files && d.files[put.Filename()] != put.bytes
    && exists n | n in d.rows :: SharesFile(d, n, put.nodeId, put.sourceHash)
  }

  lemma SharesFileIff(d: Disk, other: string, nodeId: string, hash: string)
    requires WellNamed(d) && IsHash(hash) && other in d.rows && other != nodeId
    ensures SharesFile(d, other, nodeId, hash) <==> d.rows[other].filename == FilenameFor(nodeId, hash)
  {
    SameFileIff(other, d.rows[other].sourceHash, nodeId, hash);
  }

  lemma SupersedesIff(d: Disk, put: Put)
    requires WellNamed(d) && IsHash(put.sourceHash) && put.nodeId in d.rows
    ensures d.rows[put.nodeId].filename == put.Filename()
      <==> HashPrefix(d.rows[put.nodeId].sourceHash) == HashPrefix(put.sourceHash)
  {
    SameFileIff(put.nodeId, d.rows[put.nodeId].sourceHash, put.nodeId, put.sourceHash);
  }

  /** What is deleted at the end: the file of the previous row, unless it has the new name. */
  ghost predicate Superseded(d: Disk, put: Put, file: string) {
    put.nodeId in d.rows && file == d.rows[put.nodeId].filename && file != put.Filename()
  }

  lemma CollidesIff(d: Disk, put: Put)
    requires WellNamed(d) && IsHash(put.sourceHash)
    ensures Collides(d, put) <==> exists n | n in d.rows && n != put.nodeId :: Superseded(d, put, d.rows[n].filename)
  {
    if put.nodeId in d.rows {
      SupersedesIff(d, put);
      forall n | n in d.rows && n != put.nodeId
        ensures SharesFile(d, n, put.nodeId, d.rows[put.nodeId].sourceHash)
                <==> d.rows[n].filename == d.rows[put.nodeId].filename
      {
        SharesFileIff(d, n, put.nodeId, d.rows[put.nodeId].sourceHash);
      }
    }
  }

  lemma OverwritesIff(d: Disk, put: Put)
    requires WellNamed(d) && IsHash(put.sourceHash)
    ensures Overwrites(d, put) <==>
      && put.Filename() in d.files && d.files[put.Filename()] != put.bytes
      && exists n | n in d.rows && n != put.nodeId :: d.rows[n].filename == put.Filename()
  {
    forall n | n in d.rows && n != put.nodeId
      ensures SharesFile(d, n, put.nodeId, put.sourceHash) <==> d.rows[n].filename == put.Filename()
    {
      SharesFileIff(d, n, put.nodeId, put.sourceHash);
    }
  }

  lemma OwnFileIsThere(d: Disk, put: Put, k: nat)
    requires Agrees(d)
    ensures var d' := AfterSteps(d, put, k);
      put.nodeId in d'.rows ==>
        && d'.rows[put.nodeId].filename in d'.files
        && (d'.rows[put.nodeId] == put.Row() || (put.nodeId in d.rows && d'.rows[put.nodeId] == d.rows[put.nodeId]))
  {
  }

  lemma OthersRowsStay(d: Disk, put: Put, k: nat)
    ensures var rows := AfterSteps(d, put, k).rows;
      forall n | n in d.rows && n != put.nodeId :: n in rows && rows[n] == d.rows[n]
    ensures AfterSteps(d, put, k).rows.Keys <= d.rows.Keys + {put.nodeId}
  {
  }

  /** What has become of a file after k effects. */
  lemma FileAfterSteps(d: Disk, put: Put, k: nat, file: string)
    requires file in d.files
    ensures var files := AfterSteps(d, put, k).files;
      && (file in files <==> !(k >= 3 && Superseded(d, put, file)))
      && (file in files ==> files[file] == if k >= 1 && file == put.Filename() then put.bytes else d.files[file])
  {
  }

  /**
    Wherever a put is cut off before its last step, every row's file is there; after it, exactly when the superseded
    file is not named by the row of another node that sanitises alike.
   */
  lemma StepsAgreeIff(d: Disk, put: Put, k: nat)
    requires Agrees(d) && WellNamed(d) && IsHash(put.sourceHash)
    ensures Agrees(AfterSteps(d, put, k)) <==> k < 3 || !Collides(d, put)
  {
    var d' := AfterSteps(d, put, k);
    OwnFileIsThere(d, put, k);
    OthersRowsStay(d, put, k);
    CollidesIff(d, put);
    forall n | n in d.rows && n != put.nodeId
      ensures n in d'.rows && (d'.rows[n].filename in d'.files <==> !(k >= 3 && Superseded(d, put, d.rows[n].filename)))
    {
      FileAfterSteps(d, put, k, d.rows[n].filename);
    }
  }

  lemma OthersUntouchedByFile(d: Disk, d': Disk, nodeId: string)
    requires forall n | n in d.rows && n != nodeId :: n in d'.rows && d'.rows[n] == d.rows[n]
    ensures OthersUntouched(d, d', nodeId)
      <==> forall n | n in d.rows && n != nodeId :: FileKept(d, d', d.rows[n].filename)
  {
  }

  /**
    What a put does to other nodes: nothing, exactly when it neither overwrites nor deletes a file one of them names.
   */
  lemma OthersUntouchedIff(d: Disk, put: Put, k: nat)
    requires Agrees(d) && WellNamed(d) && IsHash(put.sourceHash)
    ensures OthersUntouched(d, AfterSteps(d, put, k), put.nodeId)
      <==> !(k >= 1 && Overwrites(d, put)) && !(k >= 3 && Collides(d, put))
  {
    OthersRowsStay(d, put, k);
    CollidesIff(d, put);
    OverwritesIff(d, put);
    forall n | n in d.rows && n != put.nodeId
      ensures FileKept(d, AfterSteps(d, put, k), d.rows[n].filename) <==>
        && !(k >= 1 && d.rows[n].filename == put.Filename() && d.files[d.rows[n].filename] != put.bytes)
        && !(k >= 3 && Superseded(d, put, d.rows[n].filename))
    {
      FileAfterSteps(d, put, k, d.rows[n].filename);
    }
    OthersUntouchedByFile(d, AfterSteps(d, put, k), put.nodeId);
  }

  ghost predicate FileKept(d: Disk, d': Disk, file: string) {
    file in d.files ==> file in d'.files && d'.files[file] == d.files[file]
  }

  /** Every row's file is there at every point at which the series can be cut off. */
  ghost predicate AgreesThroughout(d: Disk, puts: seq<Put>) {
    forall n: nat :: Agrees(CutOff(d, puts, n))
  }

  /** No put of the series collides with what the ones before it left. */
  ghost predicate NoneCollides(d: Disk, puts: seq<Put>)
    decreases |puts|
  {
    puts == [] || (!Collides(d, puts[0]) && NoneCollides(AfterPut(d, puts[0]), puts[1..]))
  }

  lemma CutOffLater(d: Disk, puts: seq<Put>, n: nat)
    requires puts != []
    ensures CutOff(d, puts, n + 3) == CutOff(AfterPut(d, puts[0]), puts[1..], n)
  {
  }

  lemma AgreesThroughoutStep(d: Disk, puts: seq<Put>)
    requires puts != [] && Agrees(d) && WellNamed(d) && IsHash(puts[0].sourceHash)
    ensures AgreesThroughout(d, puts) <==> AgreesThroughout(AfterPut(d, puts[0]), puts[1..])
  {
    if AgreesThroughout(d, puts) {
      forall n: nat ensures Agrees(CutOff(AfterPut(d, puts[0]), puts[1..], n)) {
        CutOffLater(d, puts, n);
      }
    }
    if AgreesThroughout(AfterPut(d, puts[0]), puts[1..]) {
      forall n: nat ensures Agrees(CutOff(d, puts, n)) {
        if n < 3 {
          StepsAgreeIff(d, puts[0], n);
        } else {
          CutOffLater(d, puts, n - 3);
        }
      }
    }
  }

  /**
    Agreement at every intermediate point of a series of stores, exactly when no put deletes a file another node names.
   */
  lemma {:induction false} CutOffAgreesIff(d: Disk, puts: seq<Put>)
    requires Agrees(d) && WellNamed(d) && forall p | p in puts :: IsHash(p.sourceHash)
    ensures AgreesThroughout(d, puts) <==> NoneCollides(d, puts)
    decreases |puts|
  {
    if puts == [] {
      assert forall n: nat :: CutOff(d, puts, n) == d;
    } else {
      var d' := AfterPut(d, puts[0]);
      assert puts[0] in puts && forall p | p in puts[1..] :: p in puts;
      AgreesThroughoutStep(d, puts);
      StepsAgreeIff(d, puts[0], 3);
      if AgreesThroughout(d', puts[1..]) {
        assert Agrees(CutOff(d', puts[1..], 0));
      }
      if Agrees(d') {
        CutOffAgreesIff(d', puts[1..]);
      }
    }
  }

  function NodeIds(puts: seq<Put>): set<string> {
    set p | p in puts :: p.nodeId
  }

  /** Among separate ids no put collides. */
  lemma {:induction false} SeparateNeverCollide(d: Disk, puts: seq<Put>, ids: set<string>)
    requires SeparateIds(ids) && d.rows.Keys <= ids && NodeIds(puts) <= ids
    ensures NoneCollides(d, puts)
    decreases |puts|
  {
    if puts != [] {
      assert puts[0] in puts && forall p | p in puts[1..] :: p in puts;
      assert puts[0].nodeId in NodeIds(puts) && NodeIds(puts[1..]) <= NodeIds(puts);
      SeparateNeverCollide(AfterPut(d, puts[0]), puts[1..], ids);
    }
  }

  /** So among ids of safe characters, as node ids are generated, rows and files agree at every point. */
  lemma SafeIdsAgreeThroughout(d: Disk, puts: seq<Put>)
    requires Agrees(d) && WellNamed(d) && forall p | p in puts :: IsHash(p.sourceHash)
    requires forall id | id in d.rows.Keys + NodeIds(puts) :: SafeId(id)
    ensures AgreesThroughout(d, puts)
  {
    SafeIdsAreSeparate(d.rows.Keys + NodeIds(puts));
    SeparateNeverCollide(d, puts, d.rows.Keys + NodeIds(puts));
    CutOffAgreesIff(d, puts);
  }

  /** Two nodes with one text, from an empty store, and then a new text for the second. */
  function SharedThenChanged(a: string, b: string, hash: string, newHash: string): seq<Put> {
    [Put(a, "x", hash, 1), Put(b, "x", hash, 1), Put(b, "y", newHash, 1)]
  }

  lemma ThreePuts(d: Disk, first: Put, second: Put, third: Put)
    ensures CutOff(d, [first, second, third], 9) == AfterPut(AfterPut(AfterPut(d, first), second), third)
  {
    assert [first, second, third][1..] == [second, third] && [second, third][1..] == [third] && [third][1..] == [];
    CutOffLater(d, [first, second, third], 6);
    CutOffLater(AfterPut(d, first), [second, third], 3);
    CutOffLater(AfterPut(AfterPut(d, first), second), [third], 0);
  }

  /** The file two such nodes share goes with the second one's new text, and the first one's row names nothing. */
  lemma AlikeIdsCollide(a: string, b: string, hash: string, newHash: string)
    requires a != b && Sanitized(a) == Sanitized(b)
    requires IsHash(hash) && IsHash(newHash) && HashPrefix(hash) != HashPrefix(newHash)
    ensures var end := CutOff(Disk(map[], map[]), SharedThenChanged(a, b, hash, newHash), 9);
      a in end.rows && end.rows[a].filename == FilenameFor(a, hash) && end.rows[a].filename !in end.files
  {
    var puts := SharedThenChanged(a, b, hash, newHash);
    ThreePuts(Disk(map[], map[]), puts[0], puts[1], puts[2]);
    SameFileIff(a, hash, b, newHash);
  }

  function HashOf(digit: char): string {
    seq(64, i => digit)
  }

  lemma TwoHashes()
    ensures IsHash(HashOf('0')) && IsHash(HashOf('1')) && HashPrefix(HashOf('0')) != HashPrefix(HashOf('1'))
  {
    assert HashPrefix(HashOf('0'))[0] == '0' && HashPrefix(HashOf('1'))[0] == '1';
  }

  /** A dot makes the difference between two ids that are not separate. */
  lemma DottedIdCollides()
    ensures !AgreesThroughout(Disk(map[], map[]), SharedThenChanged("a.b", "ab", HashOf('0'), HashOf('1')))
  {
    var puts := SharedThenChanged("a.b", "ab", HashOf('0'), HashOf('1'));
    TwoHashes();
    assert "a.b"[1] != "ab"[1];
    AlikeIdsCollide("a.b", "ab", HashOf('0'), HashOf('1'));
    assert !Agrees(CutOff(Disk(map[], map[]), puts, 9));
  }

  // Pruning.

  /** A node to keep whose row names the file of a node to prune. */
  ghost predicate PruneCollides(d: Disk, keep: set<string>) {
    exists n, m | n in d.rows && m in d.rows :: n in keep && m !in keep && SharesFile(d, n, m, d.rows[m].sourceHash)
  }

  /**
    A completed prune leaves exactly the rows to keep, and their files, unless one of them shares a pruned node's file.
   */
  lemma PruneAgreesIff(d: Disk, keep: set<string>)
    requires Agrees(d) && WellNamed(d)
    ensures AfterPrune(d, keep).rows.Keys == d.rows.Keys * keep && WellNamed(AfterPrune(d, keep))
    ensures Agrees(AfterPrune(d, keep)) <==> !PruneCollides(d, keep)
  {
    var d' := AfterPrune(d, keep);
    forall n, m | n in d.rows && m in d.rows && n in keep && m !in keep
      ensures SharesFile(d, n, m, d.rows[m].sourceHash) <==> d.rows[n].filename == d.rows[m].filename
    {
      SharesFileIff(d, n, m, d.rows[m].sourceHash);
    }
    PruneAgreesByFile(d, keep);
  }

  lemma PruneAgreesByFile(d: Disk, keep: set<string>)
    requires Agrees(d)
    ensures Agrees(AfterPrune(d, keep)) <==>
      forall n, m | n in d.rows && m in d.rows && n in keep && m !in keep :: d.rows[n].filename != d.rows[m].filename
  {
    var d' := AfterPrune(d, keep);
    forall n | n in d.rows && n in keep
      ensures d'.rows[n].filename in d'.files <==>
        forall m | m in d.rows && m !in keep :: d.rows[n].filename != d.rows[m].filename
    {
      assert d.rows[n].filename in d.files;
      if m :| m in d.rows && m !in keep && d.rows[n].filename == d.rows[m].filename {
        assert d.rows[m].filename in StaleFiles(d.rows, keep);
      }
    }
  }

  /** Among ids of safe characters a prune keeps the agreement. */
  lemma SafeIdsPrune(d: Disk, keep: set<string>)
    requires Agrees(d) && WellNamed(d) && forall id | id in d.rows.Keys :: SafeId(id)
    ensures Agrees(AfterPrune(d, keep))
  {
    SafeIdsAreSeparate(d.rows.Keys);
    PruneAgreesIff(d, keep);
  }

  /** Between its two halves a prune does break it, as soon as there is anything to prune. */
  lemma HalfPrunedAgreesIff(d: Disk, keep: set<string>)
    requires Agrees(d)
    ensures Agrees(d.(files := d.files - StaleFiles(d.rows, keep))) <==> d.rows.Keys <= keep
  {
    var d' := d.(files := d.files - StaleFiles(d.rows, keep));
    if !(d.rows.Keys <= keep) {
      var n :| n in d.rows && n !in keep;
      assert d.rows[n].filename in StaleFiles(d.rows, keep);
      assert d'.rows[n].filename !in d'.files;
    } else {
      assert StaleFiles(d.rows, keep) == {};
    }
  }
}
