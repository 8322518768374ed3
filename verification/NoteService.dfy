// The note service on top of the repository: contents are encrypted at rest.
module NoteService {
  import opened Wrappers
  import opened NoteStore

  // AES-GCM and base64 are library code. `seal` is given the nonce that the library draws.
  datatype Cipher = Cipher(keyed: bool, seal: (string, int) -> string, open: string -> Option<string>) {
    // Opening gives back what was sealed, and a sealed text is never empty.
    ghost predicate Sound() {
      forall plain, nonce :: seal(plain, nonce) != "" && open(seal(plain, nonce)) == Some(plain)
    }

    // An empty content is stored as it is.
    function Encrypted(content: string, nonce: int): string {
      if keyed && content != "" then seal(content, nonce) else content
    }

    // None: the stored content cannot be decrypted.
    function Readable(stored: string): Option<string> {
      if keyed && stored != "" then open(stored) else Some(stored)
    }
  }

  lemma EncryptedIsReadable(cipher: Cipher, content: string, nonce: int)
    requires cipher.Sound()
    ensures cipher.Readable(cipher.Encrypted(content, nonce)) == Some(content)
  {
  }

  datatype NoteRequest = NoteRequest(title: string, content: string)

  datatype ImportResult = ImportResult(imported: int, skipped: int, errors: int, total: int)

  // What goes wrong around one request, if anything: the cipher fails, or the store does, with an
  // error text that mentions "unique" or not.
  datatype Fault = NoFault | CipherFault | StoreFault(unique: bool)

  datatype Attempt = Attempt(request: NoteRequest, now: int, nonce: int, fault: Fault)

  datatype ServiceError = CipherFailed | StoreFailed(unique: bool) | NotFound | Conflict

  // The cipher is only used on a non-empty content with a key.
  function ErrorOf(cipher: Cipher, a: Attempt): Option<ServiceError> {
    match a.fault
    case NoFault => None
    case CipherFault => if cipher.keyed && a.request.content != "" then Some(CipherFailed) else None
    case StoreFault(unique) => Some(StoreFailed(unique))
  }

  ghost function AfterCreate(t: Table, cipher: Cipher, a: Attempt, userID: string): Table {
    if ErrorOf(cipher, a).Some? then t
    else AfterUpsert(t, cipher.Encrypted(a.request.content, a.nonce), a.request.title, a.now, userID).0
  }

  // Requests one after the other.
  ghost function AfterImport(t: Table, cipher: Cipher, attempts: seq<Attempt>, userID: string): Table {
    if attempts == [] then t
    else AfterCreate(AfterImport(t, cipher, attempts[..|attempts| - 1], userID), cipher, attempts[|attempts| - 1], userID)
  }

  class Service {
    const repo: NoteRepo
    const cipher: Cipher

    constructor (repo: NoteRepo, cipher: Cipher)
      ensures this.repo == repo && this.cipher == cipher
    {
      this.repo := repo;
      this.cipher := cipher;
    }

    method EncryptNote(n: Note, nonce: int, fails: bool) returns (ok: bool)
      modifies n`content
      ensures ok <==> !(fails && cipher.keyed && old(n.content) != "")
      ensures n.content == if ok then cipher.Encrypted(old(n.content), nonce) else old(n.content)
      ensures n.content == if ok && cipher.keyed && old(n.content) != "" then cipher.seal(old(n.content), nonce) else old(n.content)
    {
      if cipher.keyed && n.content != "" {
        if fails { return false; }
        n.content := cipher.seal(n.content, nonce);
      }
      return true;
    }

    method DecryptNote(n: Note) returns (ok: bool)
      modifies n`content
      ensures ok == cipher.Readable(old(n.content)).Some?
      ensures n.content == if ok then cipher.Readable(old(n.content)).value else ""
      ensures !cipher.keyed || old(n.content) == "" ==> ok && n.content == old(n.content)
      ensures cipher.keyed && old(n.content) != "" ==> cipher.open(old(n.content)) == if ok then Some(n.content) else None
    {
      if cipher.keyed && n.content != "" {
        var plain := cipher.open(n.content);
        if plain.None? {
          n.content := "";
          return false;
        }
        n.content := plain.value;
      }
      return true;
    }

    method Create(a: Attempt, userID: string) returns (note: Option<Note>, error: Option<ServiceError>)
      requires Valid(repo.Contents()) && cipher.Sound()
      modifies repo
      ensures Valid(repo.Contents())
      ensures error == ErrorOf(cipher, a)
      ensures error == Some(CipherFailed) <==> a.fault.CipherFault? && cipher.keyed && a.request.content != ""
      ensures error.Some? && error.value.StoreFailed? <==> a.fault.StoreFault?
      ensures error.Some? ==> error.value.CipherFailed? || error == Some(StoreFailed(a.fault.unique))
      ensures error.Some? ==> repo.Contents() == old(repo.Contents())
      ensures repo.Contents() == AfterCreate(old(repo.Contents()), cipher, a, userID)
      ensures note.Some? <==> error.None?
      ensures note.Some? ==> var n := note.value;
                             fresh(n) && n.content == a.request.content && Matches(repo.rows, n.id, a.request.title, userID)
                             && n.version == repo.rows[n.id].version
                             && repo.rows[n.id].content == if cipher.keyed && a.request.content != "" then cipher.seal(a.request.content, a.nonce) else a.request.content
    {
      var n := new Note(a.request.content, a.request.title, a.now, userID);
      var sealed := EncryptNote(n, a.nonce, a.fault.CipherFault?);
      if !sealed { return None, Some(CipherFailed); }
      EncryptedIsReadable(cipher, a.request.content, a.nonce);
      var stored := repo.Upsert(n, !a.fault.StoreFault?);
      if !stored { return None, Some(StoreFailed(a.fault.unique)); }
      UpsertIsFound(old(repo.Contents()), n.content, n.title, n.createdAt, n.userID);
      var decrypted := DecryptNote(n);
      return Some(n), None;
    }

    // A store error that mentions "unique" is a skip; every other failure is an error.
    method Import(attempts: seq<Attempt>, userID: string) returns (result: ImportResult)
      requires Valid(repo.Contents()) && cipher.Sound()
      modifies repo
      ensures Valid(repo.Contents())
      ensures repo.Contents() == AfterImport(old(repo.Contents()), cipher, attempts, userID)
      ensures result.total == |attempts| && result.imported + result.skipped + result.errors == result.total
      ensures result.imported == CountOf(cipher, attempts, None) == |Succeeded(cipher, attempts)|
      ensures result.skipped == CountOf(cipher, attempts, Some(StoreFailed(true)))
    {
      result := ImportResult(0, 0, 0, |attempts|);
      for i := 0 to |attempts|
        invariant Valid(repo.Contents())
        invariant repo.Contents() == AfterImport(old(repo.Contents()), cipher, attempts[..i], userID)
        invariant result.total == |attempts| && result.imported + result.skipped + result.errors == i
        invariant result.imported == CountOf(cipher, attempts[..i], None) == |Succeeded(cipher, attempts[..i])|
        invariant result.skipped == CountOf(cipher, attempts[..i], Some(StoreFailed(true)))
      {
        var note, error := Create(attempts[i], userID);
        assert attempts[..i + 1][..i] == attempts[..i];
        if error.Some? {
          if error.value == StoreFailed(true) {
            result := result.(skipped := result.skipped + 1);
          } else {
            result := result.(errors := result.errors + 1);
          }
        } else {
          result := result.(imported := result.imported + 1);
        }
      }
      assert attempts[..|attempts|] == attempts;
    }

    // NoteService.Update with nobody in between; NoteRuns treats its two statements separately.
    method Update(id: int, request: NoteRequest, userID: string, nonce: int, cipherFails: bool, readUp: bool, writeUp: bool)
      returns (note: Option<Note>, error: Option<ServiceError>)
      requires Valid(repo.Contents()) && cipher.Sound()
      modifies repo
      ensures Valid(repo.Contents())
      ensures note.Some? <==> error.None?
      ensures note.Some? ==>
                var n := note.value;
                fresh(n) && n.id == id && n.title == request.title && n.content == request.content && n.userID == userID
                && id in repo.rows && n.version == repo.rows[id].version && n.createdAt == repo.rows[id].createdAt
      ensures error.None? ==>
                var t := old(repo.Contents());
                id in t.rows && t.rows[id].userID == userID &&
                repo.Contents() == t.(rows := t.rows[id := t.rows[id].(title := request.title,
                                                                       content := cipher.Encrypted(request.content, nonce),
                                                                       version := t.rows[id].version + 1)])
      ensures error.Some? ==> repo.Contents() == old(repo.Contents())
      ensures error == Some(NotFound) <==> readUp && !DeleteHits(old(repo.Contents()), id, userID)
      ensures error != Some(Conflict)
    {
      var ok, existing := repo.FindByID(id, readUp);
      if !ok { return None, Some(StoreFailed(false)); }
      if existing.None? || existing.value.userID != userID { return None, Some(NotFound); }
      var row := existing.value;
      var n := new Note(request.content, request.title, row.createdAt, row.userID);
      n.id, n.version := id, row.version;
      var sealed := EncryptNote(n, nonce, cipherFails);
      if !sealed { return None, Some(CipherFailed); }
      var written, outcome := repo.Update(n, writeUp);
      if !written { return None, Some(StoreFailed(false)); }
      if outcome.VersionConflict? { return None, Some(Conflict); }
      if outcome.TitleTaken? { return None, Some(StoreFailed(true)); }
      EncryptedIsReadable(cipher, request.content, nonce);
      var decrypted := DecryptNote(n);
      return Some(n), None;
    }
  }

  lemma UpsertIsFound(t: Table, content: string, title: string, createdAt: int, userID: string)
    requires Valid(t)
    ensures var (t', id) := AfterUpsert(t, content, title, createdAt, userID);
            Matches(t'.rows, id, title, userID) && t'.rows[id].content == content
  {
  }

  // How many attempts end this way.
  function CountOf(cipher: Cipher, attempts: seq<Attempt>, error: Option<ServiceError>): nat {
    if attempts == [] then 0
    else CountOf(cipher, attempts[..|attempts| - 1], error) + if ErrorOf(cipher, attempts[|attempts| - 1]) == error then 1 else 0
  }

  // The requests that were stored, in order.
  function Succeeded(cipher: Cipher, attempts: seq<Attempt>): seq<NoteRequest> {
    if attempts == [] then []
    else
      var last := attempts[|attempts| - 1];
      Succeeded(cipher, attempts[..|attempts| - 1]) + if ErrorOf(cipher, last).None? then [last.request] else []
  }

  // ------------------------------------------------------------------ the plaintext view

  datatype Key = Key(title: string, userID: string)

  datatype Doc = Doc(content: Option<string>, version: int)

  // What can be read of the table: one document for each title and user.
  ghost function View(t: Table, cipher: Cipher): map<Key, Doc>
    requires Valid(t)
  {
    map id | id in t.rows :: Key(t.rows[id].title, t.rows[id].userID) := Doc(cipher.Readable(t.rows[id].content), t.rows[id].version)
  }

  // The specification of a create: the last writer wins, and every hit raises the version.
  function Put(view: map<Key, Doc>, key: Key, content: string): map<Key, Doc> {
    view[key := Doc(Some(content), if key in view then view[key].version + 1 else 0)]
  }

  function PutAll(view: map<Key, Doc>, requests: seq<NoteRequest>, userID: string): map<Key, Doc> {
    if requests == [] then view
    else
      var last := requests[|requests| - 1];
      Put(PutAll(view, requests[..|requests| - 1], userID), Key(last.title, userID), last.content)
  }

  ghost function DocOf(t: Table, cipher: Cipher, key: Key): Option<Doc> {
    match IdOf(t.rows, key.title, key.userID)
    case Some(id) => if id in t.rows then Some(Doc(cipher.Readable(t.rows[id].content), t.rows[id].version)) else None
    case None => None
  }

  lemma ViewAt(t: Table, cipher: Cipher, key: Key)
    requires Valid(t)
    ensures Lookup(View(t, cipher), key) == DocOf(t, cipher, key)
  {
    if key in View(t, cipher) {
      var id :| id in t.rows && Key(t.rows[id].title, t.rows[id].userID) == key;
      IdOfIsUnique(t.rows, id);
    }
  }

  // An upsert decides the id of its own key and of no other.
  lemma UpsertDocs(t: Table, cipher: Cipher, stored: string, title: string, createdAt: int, userID: string, key: Key)
    requires Valid(t)
    ensures var t' := AfterUpsert(t, stored, title, createdAt, userID).0;
            var doc := DocOf(t, cipher, key);
            Valid(t') && DocOf(t', cipher, key) ==
              if key == Key(title, userID) then
                Some(Doc(cipher.Readable(stored), if doc.Some? then doc.value.version + 1 else 0))
              else doc
  {
    UpsertKeepsValid(t, stored, title, createdAt, userID);
    var (t', id) := AfterUpsert(t, stored, title, createdAt, userID);
    UpsertIsFound(t, stored, title, createdAt, userID);
    IdOfIsUnique(t'.rows, id);
    if key != Key(title, userID) {
      if IdOf(t.rows, key.title, key.userID).Some? {
        var other := IdOf(t.rows, key.title, key.userID).value;
        IdOfIsUnique(t'.rows, other);
      } else if other :| Matches(t'.rows, other, key.title, key.userID) {
        assert Matches(t.rows, other, key.title, key.userID);
        assert false;
      }
    }
  }

  lemma UpsertPuts(t: Table, cipher: Cipher, stored: string, content: string, title: string, createdAt: int, userID: string)
    requires Valid(t) && cipher.Readable(stored) == Some(content)
    ensures var t' := AfterUpsert(t, stored, title, createdAt, userID).0;
            Valid(t') && View(t', cipher) == Put(View(t, cipher), Key(title, userID), content)
  {
    UpsertKeepsValid(t, stored, title, createdAt, userID);
    var t' := AfterUpsert(t, stored, title, createdAt, userID).0;
    var after, expected := View(t', cipher), Put(View(t, cipher), Key(title, userID), content);
    forall key ensures Lookup(after, key) == Lookup(expected, key) {
      UpsertDocs(t, cipher, stored, title, createdAt, userID, key);
      ViewAt(t, cipher, key);
      ViewAt(t', cipher, key);
    }
    SameView(after, expected);
  }

  lemma SameView(v: map<Key, Doc>, w: map<Key, Doc>)
    requires forall key :: Lookup(v, key) == Lookup(w, key)
    ensures v == w
  {
    forall key ensures (key in v <==> key in w) && (key in v ==> v[key] == w[key]) {
      assert Lookup(v, key) == Lookup(w, key);
    }
  }

  // Main result: over encrypted storage, Import does to the readable notes what the plaintext
  // specification says, whatever fails on the way, and touches nothing else.
  lemma {:induction false} ImportRefinesPlaintext(t: Table, cipher: Cipher, attempts: seq<Attempt>, userID: string)
    requires Valid(t) && cipher.Sound()
    ensures Valid(AfterImport(t, cipher, attempts, userID))
    ensures View(AfterImport(t, cipher, attempts, userID), cipher)
              == PutAll(View(t, cipher), Succeeded(cipher, attempts), userID)
  {
    if attempts != [] {
      var before, last := attempts[..|attempts| - 1], attempts[|attempts| - 1];
      ImportRefinesPlaintext(t, cipher, before, userID);
      if ErrorOf(cipher, last).None? {
        var stored := cipher.Encrypted(last.request.content, last.nonce);
        EncryptedIsReadable(cipher, last.request.content, last.nonce);
        UpsertPuts(AfterImport(t, cipher, before, userID), cipher, stored, last.request.content, last.request.title, last.now, userID);
        var done := Succeeded(cipher, before);
        assert (done + [last.request])[..|done|] == done;
      } else {
        assert Succeeded(cipher, attempts) == Succeeded(cipher, before);
      }
    }
  }

  // With a key, no content is ever stored as it was given.
  ghost predicate SealedAtRest(t: Table, cipher: Cipher) {
    forall id | id in t.rows :: t.rows[id].content == "" || exists plain, nonce :: t.rows[id].content == cipher.seal(plain, nonce)
  }

  lemma {:induction false} ImportKeepsSealed(t: Table, cipher: Cipher, attempts: seq<Attempt>, userID: string)
    requires Valid(t) && cipher.Sound() && cipher.keyed && SealedAtRest(t, cipher)
    ensures SealedAtRest(AfterImport(t, cipher, attempts, userID), cipher)
  {
    if attempts != [] {
      ImportKeepsSealed(t, cipher, attempts[..|attempts| - 1], userID);
    }
  }

  function Hits(requests: seq<NoteRequest>, title: string): nat {
    if requests == [] then 0
    else Hits(requests[..|requests| - 1], title) + if requests[|requests| - 1].title == title then 1 else 0
  }

  // What the specification amounts to for one document: every request for it raises its version by
  // one, starting from zero if it is new, and documents that are not asked for stay as they were.
  lemma {:induction false} VersionsCountHits(view: map<Key, Doc>, requests: seq<NoteRequest>, userID: string, key: Key)
    ensures var after, hits := PutAll(view, requests, userID), Hits(requests, key.title);
            if key.userID != userID || hits == 0 then Lookup(after, key) == Lookup(view, key)
            else key in after && after[key].version == (if key in view then view[key].version else -1) + hits
    decreases |requests|
  {
    if requests != [] {
      VersionsCountHits(view, requests[..|requests| - 1], userID, key);
    }
  }

  // The last request for a document decides its content.
  lemma {:induction false} LastWriterWins(view: map<Key, Doc>, requests: seq<NoteRequest>, userID: string, i: nat)
    requires i < |requests| && Hits(requests[i + 1..], requests[i].title) == 0
    ensures var after, key := PutAll(view, requests, userID), Key(requests[i].title, userID);
            key in after && after[key].content == Some(requests[i].content)
    decreases |requests|
  {
    var n := |requests| - 1;
    if i < n {
      var rest := requests[i + 1..];
      assert rest[..|rest| - 1] == requests[..n][i + 1..];
      assert rest[|rest| - 1] == requests[n];
      LastWriterWins(view, requests[..n], userID, i);
    }
  }
}
