/**
 * PasswordDatabasePersistence: `load` turns the login manager's response
 * into a database keyed by account name, `save` builds the request URL that
 * carries the accounts back, and `readFile` fills a byte array from a file
 * stream. The HTTP exchange itself is not modelled: `Load` starts from the
 * response lines and `Save` ends with the URL.
 */
module Persistence {
  import opened Wrappers
  import opened Accounts
  import opened JavaLib

  /** Where `load` fetches the accounts and `save` sends them. */
  const LoginManagerUrl: string := "http://127.0.0.1:4000/loginmanager"

  /** `load` cuts the response into one chunk per account at each `}{`... */
  const ChunkSeparator: string := "}{"

  /** ...and each chunk into fields at every `,` and every `:`. */
  const FieldSeparators: set<char> := {',', ':'}

  /** The unchecked exception `load` throws when it reads a field a chunk does not have. */
  datatype LoadError = ArrayIndexOutOfBounds(index: nat)

  // ---------------------------------------------------------------------
  // load

  /** The response lines appended one after another, with nothing between them. */
  function Concat(lines: seq<string>): string
  {
    if |lines| == 0 then "" else Concat(lines[..|lines| - 1]) + lines[|lines| - 1]
  }

  /** Reading lines in two batches gives the same text as reading them at once. */
  lemma {:induction false} ConcatAppend(a: seq<string>, b: seq<string>)
    ensures Concat(a + b) == Concat(a) + Concat(b)
    decreases |b|
  {
    if |b| > 0 {
      var b' := b[..|b| - 1];
      assert (a + b)[..|a + b| - 1] == a + b';
      ConcatAppend(a, b');
    } else {
      assert a + b == a;
    }
  }

  /** A chunk with every `}` and then every `{` removed. */
  function StripBraces(chunk: string): string
  {
    Delete(Delete(chunk, '}'), '{')
  }

  /** No brace survives, every other character does, and a brace-free chunk is left as it is. */
  lemma StripBracesFacts(chunk: string)
    ensures '{' !in StripBraces(chunk) && '}' !in StripBraces(chunk)
    ensures forall d :: d != '{' && d != '}' ==> multiset(StripBraces(chunk))[d] == multiset(chunk)[d]
    ensures '{' !in chunk && '}' !in chunk ==> StripBraces(chunk) == chunk
  {
    var once := Delete(chunk, '}');
    DeleteFacts(chunk, '}');
    DeleteFacts(once, '{');
    assert multiset(StripBraces(chunk))['}'] == multiset(once)['}'];
  }

  /** `response.split("}\\{")`. */
  function Chunks(response: string): seq<string>
  {
    JavaSplit(SplitOn(response, ChunkSeparator))
  }

  /** `account.replace("}", "").replace("{", "").split(",|:")`. */
  function Fields(chunk: string): seq<string>
  {
    JavaSplit(SplitChars(StripBraces(chunk), FieldSeparators))
  }

  /** The first of the indices 3, 5, 7, 9, 11 that `load` reads and `n` fields do not reach. */
  function FirstMissing(n: nat): nat
    requires n < 12
  {
    if n <= 3 then 3 else if n <= 5 then 5 else if n <= 7 then 7 else if n <= 9 then 9 else 11
  }

  /**
   * One chunk read at fixed positions: fields 3, 5, 7, 9 and 11 are the
   * website name, url, password, notes and user id; a chunk with fewer than
   * twelve fields fails at the first of those positions it lacks.
   */
  function ParseChunk(chunk: string): (r: Result<Account, LoadError>)
    ensures r.Failure? <==> |Fields(chunk)| < 12
    ensures r.Failure? ==>
      r.error.index in {3, 5, 7, 9, 11} && |Fields(chunk)| <= r.error.index &&
      (r.error.index == 3 || r.error.index - 2 < |Fields(chunk)|)
    ensures r.Success? ==>
      var f := Fields(chunk);
      r.value.name == f[3] && r.value.url == f[5] && r.value.password == f[7] &&
      r.value.notes == f[9] && r.value.userId == f[11]
  {
    var f := Fields(chunk);
    if |f| < 12 then Failure(ArrayIndexOutOfBounds(FirstMissing(|f|)))
    else Success(Account(f[3], f[11], f[7], f[5], f[9]))
  }

  /** The accounts of the chunks in order, or the error of the first chunk that fails. */
  function ParseChunks(chunks: seq<string>): Result<seq<Account>, LoadError>
  {
    if |chunks| == 0 then Success([])
    else match ParseChunks(chunks[..|chunks| - 1])
      case Failure(e) => Failure(e)
      case Success(accounts) =>
        match ParseChunk(chunks[|chunks| - 1])
        case Failure(e) => Failure(e)
        case Success(a) => Success(accounts + [a])
  }

  /** `accounts.put(a.getAccountName(), a)` for each account in turn, starting from an empty map. */
  function PutAll(accounts: seq<Account>): seq<Account>
  {
    if |accounts| == 0 then [] else Put(PutAll(accounts[..|accounts| - 1]), accounts[|accounts| - 1])
  }

  /** The accounts `load` builds from a response, or the exception it throws. */
  function LoadAccounts(response: string): Result<seq<Account>, LoadError>
  {
    match ParseChunks(Chunks(response))
    case Failure(e) => Failure(e)
    case Success(accounts) => Success(PutAll(accounts))
  }

  /** Once a prefix of the chunks fails, the whole sequence fails with the same error. */
  lemma {:induction false} ParseChunksFailurePersists(chunks: seq<string>, k: nat)
    requires k <= |chunks| && ParseChunks(chunks[..k]).Failure?
    ensures ParseChunks(chunks) == ParseChunks(chunks[..k])
    decreases |chunks| - k
  {
    if k < |chunks| {
      assert chunks[..k + 1][..k] == chunks[..k];
      ParseChunksFailurePersists(chunks, k + 1);
    } else {
      assert chunks[..k] == chunks;
    }
  }

  /** The loop of `load` that appends each line of the response to one string. */
  method ReadResponse(lines: seq<string>) returns (response: string)
    ensures response == Concat(lines)
  {
    response := "";
    var i := 0;
    while i < |lines|
      invariant 0 <= i <= |lines|
      invariant response == Concat(lines[..i])
    {
      assert lines[..i + 1][..i] == lines[..i];
      response := response + lines[i];
      i := i + 1;
    }
    assert lines[..|lines|] == lines;
  }

  /**
   * `load` reads the response lines into one string, splits it into chunks
   * and puts each chunk's account into the map under its name; the first
   * chunk with too few fields aborts it.
   */
  method Load(lines: seq<string>) returns (r: Result<PasswordDatabase, LoadError>)
    ensures r.Success? <==> LoadAccounts(Concat(lines)).Success?
    ensures r.Success? ==> r.value == PasswordDatabase(LoadAccounts(Concat(lines)).value, DefaultOptions)
    ensures r.Failure? ==> r.error == LoadAccounts(Concat(lines)).error
  {
    var response := ReadResponse(lines);
    var chunks := Chunks(response);
    var accounts: seq<Account> := [];
    ghost var parsed: seq<Account> := [];
    var k := 0;
    while k < |chunks|
      invariant 0 <= k <= |chunks|
      invariant ParseChunks(chunks[..k]) == Success(parsed)
      invariant accounts == PutAll(parsed)
    {
      assert chunks[..k + 1][..k] == chunks[..k];
      match ParseChunk(chunks[k]) {
        case Failure(e) =>
          ParseChunksFailurePersists(chunks, k + 1);
          return Failure(e);
        case Success(a) =>
          assert (parsed + [a])[..|parsed|] == parsed;
          accounts := Put(accounts, a);
          parsed := parsed + [a];
      }
      k := k + 1;
    }
    assert chunks[..k] == chunks;
    r := Success(PasswordDatabase(accounts, DefaultOptions));
  }

  /**
   * Parsing succeeds exactly when every chunk has at least twelve fields;
   * then there is one account per chunk, in chunk order.
   */
  lemma {:induction false} ParseChunksSuccess(chunks: seq<string>)
    ensures ParseChunks(chunks).Success? <==> forall i :: 0 <= i < |chunks| ==> |Fields(chunks[i])| >= 12
    ensures ParseChunks(chunks).Success? ==>
      |ParseChunks(chunks).value| == |chunks| &&
      forall i :: 0 <= i < |chunks| ==> Success(ParseChunks(chunks).value[i]) == ParseChunk(chunks[i])
  {
    if |chunks| > 0 {
      var init := chunks[..|chunks| - 1];
      ParseChunksSuccess(init);
      assert forall i :: 0 <= i < |init| ==> init[i] == chunks[i];
    }
  }

  /** A failure carries the error of the first chunk with too few fields. */
  lemma {:induction false} ParseChunksFailure(chunks: seq<string>)
    requires ParseChunks(chunks).Failure?
    ensures exists k :: (0 <= k < |chunks| && Failure(ParseChunks(chunks).error) == ParseChunk(chunks[k]) &&
      forall i :: 0 <= i < k ==> ParseChunk(chunks[i]).Success?)
  {
    var init := chunks[..|chunks| - 1];
    assert forall i :: 0 <= i < |init| ==> init[i] == chunks[i];
    if ParseChunks(init).Failure? {
      ParseChunksFailure(init);
    } else {
      ParseChunksSuccess(init);
      var k := |chunks| - 1;
      assert forall i :: 0 <= i < k ==> Success(ParseChunks(init).value[i]) == ParseChunk(chunks[i]);
    }
  }

  /**
   * The map `load` builds: names stay unique, there are no more accounts
   * than chunks, a name is present exactly when some chunk carried it, and
   * it holds the account of the LAST chunk with that name.
   */
  lemma {:induction false} PutAllFacts(accounts: seq<Account>)
    ensures Distinct(Names(PutAll(accounts)))
    ensures |PutAll(accounts)| <= |accounts|
    ensures forall n :: Lookup(PutAll(accounts), n) == LastNamed(accounts, n)
    ensures forall n :: n in Names(PutAll(accounts)) <==> n in Names(accounts)
  {
    if |accounts| > 0 {
      var init, a := accounts[..|accounts| - 1], accounts[|accounts| - 1];
      var m := PutAll(init);
      PutAllFacts(init);
      PutNames(m, a);
      PutLookup(m, a);
      PutDistinct(m, a);
      assert accounts == init + [a];
      NamesAppend(init, [a]);
      forall n ensures n in Names(PutAll(accounts)) <==> n in Names(accounts) {
        LookupFacts(PutAll(accounts), n);
        LookupFacts(m, n);
      }
    }
  }

  /** When no two chunks share a name every `put` adds a new key, so the map keeps the chunks' accounts in chunk order. */
  lemma {:induction false} PutAllDistinct(accounts: seq<Account>)
    requires Distinct(Names(accounts))
    ensures PutAll(accounts) == accounts
  {
    if |accounts| > 0 {
      var init, a := accounts[..|accounts| - 1], accounts[|accounts| - 1];
      assert accounts == init + [a];
      NamesAppend(init, [a]);
      assert Distinct(Names(init)) by {
        forall i, j | 0 <= i < j < |init| ensures Names(init)[i] != Names(init)[j] {
          assert Names(accounts)[i] == Names(init)[i] && Names(accounts)[j] == Names(init)[j];
        }
      }
      PutAllDistinct(init);
      forall k | 0 <= k < |init| ensures Names(init)[k] != a.name {
        assert Names(accounts)[k] == Names(init)[k] && Names(accounts)[|init|] == a.name;
      }
      PutNames(init, a);
    }
  }

  /** A successful load has unique names, at most one account per chunk, and each name holds its last chunk's account. */
  lemma LoadAccountsFacts(response: string)
    requires LoadAccounts(response).Success?
    ensures Distinct(Names(LoadAccounts(response).value))
    ensures |LoadAccounts(response).value| <= |Chunks(response)|
    ensures forall n :: Lookup(LoadAccounts(response).value, n) == LastNamed(ParseChunks(Chunks(response)).value, n)
  {
    var parsed := ParseChunks(Chunks(response)).value;
    ParseChunksSuccess(Chunks(response));
    PutAllFacts(parsed);
  }

  /** An empty response is one empty chunk, and reading its field 3 throws. */
  lemma LoadEmptyResponse()
    ensures LoadAccounts("") == Failure(ArrayIndexOutOfBounds(3))
  {
    assert SplitOn("", ChunkSeparator) == [""];
    assert Chunks("") == [""];
    assert StripBraces("") == "";
    assert Fields("") == [""];
    assert [""][..0] == [];
  }

  /** A response that is only `}{` splits into no chunks at all and loads as an empty database. */
  lemma LoadBareSeparator()
    ensures LoadAccounts("}{") == Success([])
  {
    assert "}{"[..2] == ChunkSeparator;
    assert "}{"[2..] == "";
    assert SplitOn("}{", ChunkSeparator) == ["", ""];
    assert ["", ""][..1] == [""];
    assert [""][..0] == [];
    assert Chunks("}{") == [];
  }

  // ---------------------------------------------------------------------
  // save

  /** One `key=value` parameter of the save URL. */
  function Param(key: string, value: string): string
  {
    key + "=" + value
  }

  /** A parameter, `&`, and the parameters after it. */
  function Amp(param: string, rest: string): string
  {
    param + "&" + rest
  }

  /**
   * The parameters `save` sends for one account:
   * `websiteName=…&website=…&password=…&infoNotes=…&userId=…`; nothing is escaped.
   */
  function SegmentBody(a: Account): string
  {
    Amp(Param("websiteName", a.name), Amp(Param("website", a.url), Amp(Param("password", a.password),
      Amp(Param("infoNotes", a.notes), Param("userId", a.userId)))))
  }

  /** The query segment `save` appends for one account. */
  function Segment(a: Account): string
  {
    "?" + SegmentBody(a)
  }

  /** The segments of the accounts, in iteration order. */
  function Query(accounts: seq<Account>): string
  {
    if |accounts| == 0 then "" else Query(accounts[..|accounts| - 1]) + Segment(accounts[|accounts| - 1])
  }

  /** The URL `save` posts to. */
  function SaveUrl(accounts: seq<Account>): string
  {
    LoginManagerUrl + Query(accounts)
  }

  /** `save` appends one segment per account to the login manager URL. */
  method Save(accounts: seq<Account>) returns (url: string)
    ensures url == SaveUrl(accounts)
  {
    url := LoginManagerUrl;
    var i := 0;
    assert accounts[..0] == [];
    while i < |accounts|
      invariant 0 <= i <= |accounts|
      invariant url == SaveUrl(accounts[..i])
    {
      assert accounts[..i + 1] == accounts[..i] + [accounts[i]];
      SaveUrlAppend(accounts[..i], accounts[i]);
      url := url + Segment(accounts[i]);
      i := i + 1;
    }
    assert accounts[..i] == accounts;
  }

  /** Each further account adds its segment at the end of the URL. */
  lemma SaveUrlAppend(accounts: seq<Account>, a: Account)
    ensures SaveUrl(accounts + [a]) == SaveUrl(accounts) + Segment(a)
  {
    var q, s := Query(accounts), Segment(a);
    assert (accounts + [a])[..|accounts|] == accounts;
    assert Query(accounts + [a]) == q + s;
    assert LoginManagerUrl + (q + s) == (LoginManagerUrl + q) + s;
  }

  /** Segments of two batches of accounts are the segments of each batch, one after the other. */
  lemma {:induction false} QueryAppend(a: seq<Account>, b: seq<Account>)
    ensures Query(a + b) == Query(a) + Query(b)
    decreases |b|
  {
    if |b| > 0 {
      var b', last := b[..|b| - 1], b[|b| - 1];
      assert (a + b)[..|a + b| - 1] == a + b';
      assert (a + b)[|a + b| - 1] == last;
      QueryAppend(a, b');
      assert Query(a + b) == Query(a + b') + Segment(last);
      assert Query(b) == Query(b') + Segment(last);
      ConcatAssoc(Query(a), Query(b'), Segment(last));
    } else {
      assert a + b == a;
    }
  }

  /** The URL always starts with the login manager's address, and is exactly that address without accounts. */
  lemma SaveUrlPrefix(accounts: seq<Account>)
    ensures SaveUrl(accounts)[..|LoginManagerUrl|] == LoginManagerUrl
    ensures accounts == [] ==> SaveUrl(accounts) == LoginManagerUrl
  {
    var base, q := LoginManagerUrl, Query(accounts);
    assert (base + q)[..|base|] == base;
  }

  // ---------------------------------------------------------------------
  // readFile

  newtype byte = x: int | 0 <= x < 256

  /** `(int) n` on a `long`: the low 32 bits read as a signed integer. */
  function JavaIntCast(n: int): int
  {
    var m := n % 0x1_0000_0000;
    if m >= 0x8000_0000 then m - 0x1_0000_0000 else m
  }

  lemma JavaIntCastFacts(n: int)
    ensures -0x8000_0000 <= JavaIntCast(n) < 0x8000_0000
    ensures 0 <= n < 0x8000_0000 ==> JavaIntCast(n) == n
    ensures 0x8000_0000 <= n < 0x1_0000_0000 ==> JavaIntCast(n) < 0
  {
  }

  /** An open file input stream: the bytes not read yet. */
  class FileInputStream {
    var remaining: seq<byte>

    constructor (content: seq<byte>)
      ensures remaining == content
    {
      remaining := content;
    }

    /**
     * `read(b, off, len)`: -1 at the end of the stream; otherwise at least
     * one and at most `len` of the remaining bytes, copied to `b[off..]`.
     */
    method Read(b: array<byte>, off: nat, len: nat) returns (n: int)
      requires off + len <= b.Length && len > 0
      modifies this, b
      ensures n == -1 <==> old(remaining) == []
      ensures n == -1 ==> remaining == old(remaining) && b[..] == old(b[..])
      ensures n != -1 ==> 1 <= n <= len && n <= |old(remaining)|
      ensures n != -1 ==> remaining == old(remaining)[n..]
      ensures n != -1 ==> b[off..off + n] == old(remaining)[..n]
      ensures n != -1 ==> forall k :: 0 <= k < b.Length && !(off <= k < off + n) ==> b[k] == old(b[k])
    {
      if remaining == [] {
        return -1;
      }
      n := if len < |remaining| then len else |remaining|;
      forall k | off <= k < off + n {
        b[k] := remaining[k - off];
      }
      remaining := remaining[n..];
    }
  }

  /** Why `readFile` fails. */
  datatype ReadError = CannotOpen | NegativeArraySize | CouldNotCompletelyRead

  /**
   * `readFile`: an array of `(int) file.length()` bytes, filled by reads
   * until it is full or the stream ends; ending early is an error. A `null`
   * stream stands for a file that could not be opened.
   */
  method ReadFile(stream: FileInputStream?, fileLength: nat) returns (r: Result<array<byte>, ReadError>)
    modifies stream
    ensures stream == null ==> r == Failure(CannotOpen)
    ensures stream != null && JavaIntCast(fileLength) < 0 ==>
      r == Failure(NegativeArraySize) && stream.remaining == old(stream.remaining)
    ensures stream != null && JavaIntCast(fileLength) >= 0 ==>
      var n := JavaIntCast(fileLength);
      (r.Success? <==> n <= |old(stream.remaining)|) &&
      (r.Success? ==>
        fresh(r.value) && r.value[..] == old(stream.remaining)[..n] && stream.remaining == old(stream.remaining)[n..]) &&
      (r.Failure? ==> r.error == CouldNotCompletelyRead && stream.remaining == [])
  {
    if stream == null {
      return Failure(CannotOpen);
    }
    var length := JavaIntCast(fileLength);
    if length < 0 {
      return Failure(NegativeArraySize);
    }
    var bytes := new byte[length];
    var offset := 0;
    ghost var content := stream.remaining;
    while offset < bytes.Length
      invariant 0 <= offset <= bytes.Length
      invariant offset <= |content|
      invariant stream.remaining == content[offset..]
      invariant bytes[..offset] == content[..offset]
      decreases bytes.Length - offset
    {
      var numRead := stream.Read(bytes, offset, bytes.Length - offset);
      if numRead < 0 {
        break;
      }
      assert bytes[..offset + numRead] == bytes[..offset] + bytes[offset..offset + numRead];
      assert content[..offset + numRead] == content[..offset] + content[offset..][..numRead];
      offset := offset + numRead;
    }
    if offset < bytes.Length {
      return Failure(CouldNotCompletelyRead);
    }
    assert bytes[..] == bytes[..offset];
    r := Success(bytes);
  }
}
