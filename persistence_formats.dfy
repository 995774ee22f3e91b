/**
 * The text formats on either side of PasswordDatabasePersistence, stated as
 * partners of `load` and `save`. `load` fixes only positions: six
 * `key:value` pairs, values at the odd fields 1 to 11. The key names here
 * (`{id:…,websiteName:…,website:…,password:…,infoNotes:…,userId:…}`, records
 * back to back) are an assumed layout, borrowed from the parameter names of
 * the URL `save` builds. A decoder for that URL is the other partner. The
 * lemmas say when each direction undoes the other and what happens to text
 * that the formats cannot carry.
 */
module PersistenceFormats {
  import opened Wrappers
  import opened Accounts
  import opened JavaLib
  import opened Persistence

  const Braces: set<char> := {'{', '}'}

  /** Text the response format carries unchanged: no field separator and no brace. */
  predicate Plain(s: string)
  {
    Free(s, FieldSeparators) && Free(s, Braces)
  }

  predicate PlainAccount(a: Account)
  {
    Plain(a.name) && Plain(a.userId) && Plain(a.password) && Plain(a.url) && Plain(a.notes)
  }

  // ---------------------------------------------------------------------
  // The response `load` reads

  /** `key:value` in a record. */
  function Pair(key: string, value: string): string
  {
    key + ":" + value
  }

  /** `key:value,` followed by the rest of the record. */
  function KV(key: string, value: string, rest: string): string
  {
    Pair(key, value) + "," + rest
  }

  /** One account record in the assumed layout, without its braces: `id:…,websiteName:…,website:…,password:…,infoNotes:…,userId:…`. */
  function RecordBody(id: string, a: Account): string
  {
    KV("id", id, KV("websiteName", a.name, KV("website", a.url, KV("password", a.password,
      KV("infoNotes", a.notes, Pair("userId", a.userId))))))
  }

  /** The record's keys and values, in the order they appear. */
  function RecordFields(id: string, a: Account): seq<string>
  {
    ["id", id, "websiteName", a.name, "website", a.url, "password", a.password, "infoNotes", a.notes, "userId", a.userId]
  }

  lemma SplitPair(k: string, v: string)
    requires Free(k, FieldSeparators) && Free(v, FieldSeparators)
    ensures SplitChars(Pair(k, v), FieldSeparators) == [k, v]
  {
    SplitCharsFree(v, FieldSeparators);
    SplitCharsAt(k, ':', v, FieldSeparators);
  }

  lemma SplitKV(k: string, v: string, rest: string)
    requires Free(k, FieldSeparators) && Free(v, FieldSeparators)
    ensures SplitChars(KV(k, v, rest), FieldSeparators) == [k, v] + SplitChars(rest, FieldSeparators)
  {
    var t := v + [','] + rest;
    var kv := KV(k, v, rest);
    assert kv == k + [':'] + t;
    SplitCharsAt(v, ',', rest, FieldSeparators);
    SplitCharsAt(k, ':', t, FieldSeparators);
    assert SplitChars(kv, FieldSeparators) == [k] + SplitChars(t, FieldSeparators);
  }

  lemma KVFree(k: string, v: string, rest: string, other: set<char>)
    requires Free(k, other) && Free(v, other) && Free(rest, other) && ':' !in other && ',' !in other
    ensures Free(Pair(k, v), other) && Free(KV(k, v, rest), other)
  {
    FreeAppend(k, ":", other);
    FreeAppend(k + ":", v, other);
    FreeAppend(Pair(k, v), ",", other);
    FreeAppend(Pair(k, v) + ",", rest, other);
  }

  /** The record's keys are plain text. */
  lemma KeysPlain()
    ensures Plain("id") && Plain("websiteName") && Plain("website")
    ensures Plain("password") && Plain("infoNotes") && Plain("userId")
  {
  }

  /** A record of plain text splits into its twelve keys and values. */
  lemma SplitRecord(id: string, a: Account)
    requires Plain(id) && PlainAccount(a)
    ensures SplitChars(RecordBody(id, a), FieldSeparators) == RecordFields(id, a)
  {
    KeysPlain();
    var r5 := Pair("userId", a.userId);
    var r4 := KV("infoNotes", a.notes, r5);
    var r3 := KV("password", a.password, r4);
    var r2 := KV("website", a.url, r3);
    var r1 := KV("websiteName", a.name, r2);
    SplitPair("userId", a.userId);
    SplitKV("infoNotes", a.notes, r5);
    SplitKV("password", a.password, r4);
    SplitKV("website", a.url, r3);
    SplitKV("websiteName", a.name, r2);
    SplitKV("id", id, r1);
  }

  /** A record of plain text holds no brace. */
  lemma RecordBodyPlain(id: string, a: Account)
    requires Plain(id) && PlainAccount(a)
    ensures Free(RecordBody(id, a), Braces)
  {
    KeysPlain();
    var r5 := Pair("userId", a.userId);
    var r4 := KV("infoNotes", a.notes, r5);
    var r3 := KV("password", a.password, r4);
    var r2 := KV("website", a.url, r3);
    var r1 := KV("websiteName", a.name, r2);
    KVFree("userId", a.userId, "", Braces);
    KVFree("infoNotes", a.notes, r5, Braces);
    KVFree("password", a.password, r4, Braces);
    KVFree("website", a.url, r3, Braces);
    KVFree("websiteName", a.name, r2, Braces);
    KVFree("id", id, r1, Braces);
  }

  /** Records one after another, each in braces. */
  function Records(bodies: seq<string>): string
  {
    if |bodies| == 0 then "" else "{" + bodies[0] + "}" + Records(bodies[1..])
  }

  /** The response for a list of accounts, the i-th carrying id `ids[i]`. */
  function Response(ids: seq<string>, accounts: seq<Account>): string
    requires |ids| == |accounts|
  {
    Records(seq(|accounts|, i requires 0 <= i < |accounts| => RecordBody(ids[i], accounts[i])))
  }

  lemma {:induction false} RecordsJoin(bodies: seq<string>)
    requires |bodies| >= 1
    ensures Records(bodies) == "{" + JoinWith(bodies, ChunkSeparator) + "}"
  {
    if |bodies| > 1 {
      RecordsJoin(bodies[1..]);
      assert bodies[1..][1..] == bodies[2..];
    } else {
      assert bodies[1..] == [];
    }
  }

  /** `ps` with `p` put before its first piece and `q` after its last. */
  function Wrap(ps: seq<string>, p: string, q: string): (r: seq<string>)
    requires |ps| >= 1
    ensures |r| == |ps|
    decreases |ps|
  {
    if |ps| == 1 then [p + ps[0] + q] else [p + ps[0]] + Wrap(ps[1..], "", q)
  }

  lemma {:induction false} WrapAt(ps: seq<string>, p: string, q: string)
    requires |ps| >= 1
    ensures forall i :: 0 <= i < |ps| ==>
      Wrap(ps, p, q)[i] == (if i == 0 then p else "") + ps[i] + (if i == |ps| - 1 then q else "")
    decreases |ps|
  {
    if |ps| > 1 {
      WrapAt(ps[1..], "", q);
      forall i | 0 <= i < |ps| ensures
        Wrap(ps, p, q)[i] == (if i == 0 then p else "") + ps[i] + (if i == |ps| - 1 then q else "")
      {
        if i > 0 {
          assert Wrap(ps, p, q)[i] == Wrap(ps[1..], "", q)[i - 1];
          assert "" + ps[i] == ps[i];
        } else {
          assert p + ps[0] + "" == p + ps[0];
        }
      }
    }
  }

  lemma {:induction false} JoinWrap(ps: seq<string>, p: string, q: string, sep: string)
    requires |ps| >= 1
    ensures JoinWith(Wrap(ps, p, q), sep) == p + JoinWith(ps, sep) + q
    decreases |ps|
  {
    if |ps| > 1 {
      JoinWrap(ps[1..], "", q, sep);
      assert Wrap(ps, p, q)[1..] == Wrap(ps[1..], "", q);
      assert "" + JoinWith(ps[1..], sep) == JoinWith(ps[1..], sep);
    }
  }

  lemma FreeNotIn(s: string, seps: set<char>, c: char)
    requires Free(s, seps) && c in seps
    ensures c !in s
  {
    forall k | 0 <= k < |s| ensures s[k] != c {
    }
  }

  /** A `}` only at the very end cannot start a `}{`. */
  lemma NoSeparatorBeforeEnd(x: string)
    requires '}' !in x
    ensures NoOccurrence(x + "}", ChunkSeparator)
  {
    var s := x + "}";
    forall j | 0 <= j < |s| ensures !OccursAt(s, ChunkSeparator, j) {
      if j + 2 <= |s| {
        assert s[j] == x[j];
        assert s[j..j + 2][0] == s[j];
      }
    }
  }

  /** Deleting the braces from a brace-free text with braces added at its ends gives the text back. */
  lemma StripWrapped(pre: string, b: string, post: string)
    requires pre == "" || pre == "{"
    requires post == "" || post == "}"
    requires Free(b, Braces)
    ensures StripBraces(pre + b + post) == b
  {
    FreeNotIn(b, Braces, '{');
    FreeNotIn(b, Braces, '}');
    DeleteAppend(pre + b, post, '}');
    DeleteAppend(pre, b, '}');
    DeleteFacts(b, '}');
    var once := Delete(pre, '}') + b + Delete(post, '}');
    assert Delete(pre, '}') == pre;
    assert Delete(post, '}') == "";
    assert once == pre + b;
    DeleteAppend(pre, b, '{');
    DeleteFacts(b, '{');
    assert Delete(pre, '{') == "";
  }

  /**
   * Brace-free record bodies written back to back in braces come out of
   * `split("}\\{")` as one chunk per record, and removing the braces from
   * each chunk gives its body back.
   */
  lemma ChunksOfRecords(bodies: seq<string>)
    requires |bodies| >= 1
    requires forall i :: 0 <= i < |bodies| ==> Free(bodies[i], Braces)
    ensures |Chunks(Records(bodies))| == |bodies|
    ensures forall i :: 0 <= i < |bodies| ==> StripBraces(Chunks(Records(bodies))[i]) == bodies[i]
  {
    var cs := Wrap(bodies, "{", "}");
    var n := |bodies|;
    WrapAt(bodies, "{", "}");
    RecordsJoin(bodies);
    JoinWrap(bodies, "{", "}", ChunkSeparator);
    forall i | 0 <= i < n - 1 ensures ChunkSeparator[0] !in cs[i] {
      FreeNotIn(bodies[i], Braces, '}');
      if i == 0 {
        assert cs[i] == "{" + bodies[i] + "";
        assert cs[i] == "{" + bodies[i];
        assert cs[i][1..] == bodies[i];
      } else {
        assert cs[i] == "" + bodies[i] + "";
      }
    }
    var pre := if n == 1 then "{" else "";
    FreeNotIn(bodies[n - 1], Braces, '}');
    assert '}' !in pre + bodies[n - 1];
    assert cs[n - 1] == (pre + bodies[n - 1]) + "}";
    NoSeparatorBeforeEnd(pre + bodies[n - 1]);
    SplitOnJoin(cs, ChunkSeparator);
    assert cs[n - 1] != "";
    assert Chunks(Records(bodies)) == cs;
    forall i | 0 <= i < n ensures StripBraces(cs[i]) == bodies[i] {
      StripWrapped(if i == 0 then "{" else "", bodies[i], if i == n - 1 then "}" else "");
    }
  }

  /** One chunk of a well-formed record parses to the record's account. */
  lemma ParseRecord(chunk: string, id: string, a: Account)
    requires Plain(id) && PlainAccount(a) && a.userId != ""
    requires StripBraces(chunk) == RecordBody(id, a)
    ensures ParseChunk(chunk) == Success(a)
  {
    SplitRecord(id, a);
    assert Fields(chunk) == RecordFields(id, a);
  }

  /** Each chunk of a well-formed response parses to its account. */
  lemma ParseResponseChunks(ids: seq<string>, accounts: seq<Account>)
    requires |ids| == |accounts| >= 1
    requires forall i :: 0 <= i < |accounts| ==> Plain(ids[i]) && PlainAccount(accounts[i]) && accounts[i].userId != ""
    ensures |Chunks(Response(ids, accounts))| == |accounts|
    ensures forall i :: 0 <= i < |accounts| ==> ParseChunk(Chunks(Response(ids, accounts))[i]) == Success(accounts[i])
  {
    var bodies := seq(|accounts|, i requires 0 <= i < |accounts| => RecordBody(ids[i], accounts[i]));
    assert Response(ids, accounts) == Records(bodies);
    forall i | 0 <= i < |bodies| ensures Free(bodies[i], Braces) {
      RecordBodyPlain(ids[i], accounts[i]);
    }
    ChunksOfRecords(bodies);
    var cs := Chunks(Records(bodies));
    forall i | 0 <= i < |cs| ensures ParseChunk(cs[i]) == Success(accounts[i]) {
      ParseRecord(cs[i], ids[i], accounts[i]);
    }
  }

  /** Chunks that each parse to the matching account parse, all together, to those accounts. */
  lemma ParseEveryChunk(cs: seq<string>, accounts: seq<Account>)
    requires |cs| == |accounts|
    requires forall i :: 0 <= i < |cs| ==> ParseChunk(cs[i]) == Success(accounts[i])
    ensures ParseChunks(cs) == Success(accounts)
  {
    ParseChunksSuccess(cs);
    var parsed := ParseChunks(cs).value;
    assert parsed == accounts by {
      forall i | 0 <= i < |cs| ensures parsed[i] == accounts[i] {
        assert Success(parsed[i]) == ParseChunk(cs[i]);
      }
    }
  }

  /**
   * `load` reads back a response that lists at least one account, provided
   * no field holds a `,`, `:`, `{` or `}` and every user id is non-empty;
   * accounts sharing a name collapse to the last of them, and with distinct
   * names the database gets exactly the listed accounts in order.
   */
  lemma LoadRoundTrip(ids: seq<string>, accounts: seq<Account>)
    requires |ids| == |accounts| >= 1
    requires forall i :: 0 <= i < |accounts| ==> Plain(ids[i]) && PlainAccount(accounts[i]) && accounts[i].userId != ""
    ensures LoadAccounts(Response(ids, accounts)) == Success(PutAll(accounts))
    ensures Distinct(Names(accounts)) ==> LoadAccounts(Response(ids, accounts)) == Success(accounts)
  {
    ParseResponseChunks(ids, accounts);
    ParseEveryChunk(Chunks(Response(ids, accounts)), accounts);
    if Distinct(Names(accounts)) {
      PutAllDistinct(accounts);
    }
  }

  /**
   * An empty user id is the last field of its record, so `split` drops it
   * and `load` throws when it reads field 11.
   */
  lemma LoadEmptyUserId(id: string, a: Account)
    requires Plain(id) && PlainAccount(a) && a.userId == ""
    ensures LoadAccounts(Records([RecordBody(id, a)])) == Failure(ArrayIndexOutOfBounds(11))
  {
    var body := RecordBody(id, a);
    RecordBodyPlain(id, a);
    ChunksOfRecords([body]);
    var cs := Chunks(Records([body]));
    var f := RecordFields(id, a);
    SplitRecord(id, a);
    assert StripBraces(cs[0]) == body;
    assert f[11] == "" && f[..11][10] == "userId";
    assert DropTrailingEmpty(f[..11]) == f[..11];
    assert DropTrailingEmpty(f) == f[..11];
    assert Fields(cs[0]) == f[..11];
    assert ParseChunk(cs[0]) == Failure(ArrayIndexOutOfBounds(11));
    assert cs[..0] == [];
    assert ParseChunks(cs) == Failure(ArrayIndexOutOfBounds(11));
  }

  /** The pieces of a record whose url holds one `:`. */
  function ShiftedFields(id: string, a: Account, u1: string, u2: string): seq<string>
  {
    ["id", id, "websiteName", a.name, "website", u1, u2, "password", a.password, "infoNotes", a.notes, "userId", a.userId]
  }

  lemma SplitShiftedRecord(id: string, a: Account, u1: string, u2: string)
    requires Plain(id) && Plain(a.name) && Plain(a.userId) && Plain(a.password) && Plain(a.notes)
    requires Plain(u1) && Plain(u2) && a.url == u1 + ":" + u2
    ensures SplitChars(RecordBody(id, a), FieldSeparators) == ShiftedFields(id, a, u1, u2)
  {
    KeysPlain();
    var r5 := Pair("userId", a.userId);
    var r4 := KV("infoNotes", a.notes, r5);
    var r3 := KV("password", a.password, r4);
    var r2 := KV("website", a.url, r3);
    var r1 := KV("websiteName", a.name, r2);
    SplitPair("userId", a.userId);
    SplitKV("infoNotes", a.notes, r5);
    SplitKV("password", a.password, r4);
    SplitWebsiteShifted(u1, u2, r3);
    SplitKV("websiteName", a.name, r2);
    SplitKV("id", id, r1);
  }

  lemma SplitWebsiteShifted(u1: string, u2: string, r3: string)
    requires Plain(u1) && Plain(u2)
    ensures SplitChars(KV("website", u1 + ":" + u2, r3), FieldSeparators) ==
      ["website", u1, u2] + SplitChars(r3, FieldSeparators)
  {
    var t1 := u1 + [':'] + (u2 + [','] + r3);
    ShiftedWebsiteShape(u1, u2, r3);
    SplitTwoValues(u1, u2, r3);
    SplitCharsAt("website", ':', t1, FieldSeparators);
  }

  lemma ShiftedWebsiteShape(u1: string, u2: string, r3: string)
    ensures KV("website", u1 + ":" + u2, r3) == "website" + [':'] + (u1 + [':'] + (u2 + [','] + r3))
  {
    var w := Pair("website", u1 + ":" + u2);
    assert w == "website" + [':'] + (u1 + [':'] + u2);
  }

  lemma SplitTwoValues(u1: string, u2: string, r3: string)
    requires Plain(u1) && Plain(u2)
    ensures SplitChars(u1 + [':'] + (u2 + [','] + r3), FieldSeparators) == [u1, u2] + SplitChars(r3, FieldSeparators)
  {
    SplitCharsAt(u2, ',', r3, FieldSeparators);
    SplitCharsAt(u1, ':', u2 + [','] + r3, FieldSeparators);
  }

  /**
   * A url such as `http://host` carries a `:`, so everything after it moves
   * one field to the right: `load` stores the text before the colon as the
   * url, and the keys of the next three pairs (`password`, `infoNotes` and
   * `userId` in the assumed layout) as the password, notes and user id.
   */
  lemma LoadColonInUrl(id: string, a: Account, u1: string, u2: string)
    requires Plain(id) && Plain(a.name) && Plain(a.userId) && Plain(a.password) && Plain(a.notes)
    requires Plain(u1) && Plain(u2) && a.url == u1 + ":" + u2
    ensures LoadAccounts(Records([RecordBody(id, a)])) ==
      Success([Account(a.name, "userId", "password", u1, "infoNotes")])
  {
    var f := ShiftedFields(id, a, u1, u2);
    SplitShiftedRecord(id, a, u1, u2);
    FreeAppend(u1, ":", Braces);
    FreeAppend(u1 + ":", u2, Braces);
    RecordBodyPlainUrl(id, a);
    var body := RecordBody(id, a);
    ChunksOfRecords([body]);
    var cs := Chunks(Records([body]));
    assert StripBraces(cs[0]) == body;
    var g := if a.userId == "" then f[..12] else f;
    if a.userId == "" {
      assert f[12] == "" && f[..12][11] == "userId";
      assert DropTrailingEmpty(f[..12]) == f[..12];
      assert DropTrailingEmpty(f) == f[..12];
    } else {
      assert DropTrailingEmpty(f) == f;
    }
    assert Fields(cs[0]) == g;
    var shifted := Account(a.name, "userId", "password", u1, "infoNotes");
    assert ParseChunk(cs[0]) == Success(shifted);
    assert cs[..0] == [];
    assert ParseChunks(cs[..0]) == Success([]);
    assert [] + [shifted] == [shifted];
    assert ParseChunks(cs) == Success([shifted]);
    assert PutAll([shifted]) == [shifted];
  }

  /** Brace-freeness of a record needs only brace-free fields. */
  lemma RecordBodyPlainUrl(id: string, a: Account)
    requires Free(id, Braces) && Free(a.name, Braces) && Free(a.userId, Braces) && Free(a.password, Braces)
    requires Free(a.notes, Braces) && Free(a.url, Braces)
    ensures Free(RecordBody(id, a), Braces)
  {
    KeysPlain();
    var r5 := Pair("userId", a.userId);
    var r4 := KV("infoNotes", a.notes, r5);
    var r3 := KV("password", a.password, r4);
    var r2 := KV("website", a.url, r3);
    var r1 := KV("websiteName", a.name, r2);
    KVFree("userId", a.userId, "", Braces);
    KVFree("infoNotes", a.notes, r5, Braces);
    KVFree("password", a.password, r4, Braces);
    KVFree("website", a.url, r3, Braces);
    KVFree("websiteName", a.name, r2, Braces);
    KVFree("id", id, r1, Braces);
  }

  // ---------------------------------------------------------------------
  // The URL `save` builds

  const QueryMark: set<char> := {'?'}
  const ParamMark: set<char> := {'&'}

  /** Text the URL carries unchanged: no `?` and no `&`. */
  predicate UrlSafe(s: string)
  {
    Free(s, QueryMark) && Free(s, ParamMark)
  }

  predicate UrlSafeAccount(a: Account)
  {
    UrlSafe(a.name) && UrlSafe(a.userId) && UrlSafe(a.password) && UrlSafe(a.url) && UrlSafe(a.notes)
  }

  /** The value of a `key=value` parameter, if the parameter has that key. */
  function ParamValue(param: string, key: string): Option<string>
  {
    if |key| <= |param| && param[..|key|] == key then Some(param[|key|..]) else None
  }

  /** One segment's five parameters back into an account. */
  function DecodeSegment(segment: string): Option<Account>
  {
    var ps := SplitChars(segment, ParamMark);
    if |ps| != 5 then None
    else
      match (ParamValue(ps[0], "websiteName="), ParamValue(ps[1], "website="), ParamValue(ps[2], "password="),
             ParamValue(ps[3], "infoNotes="), ParamValue(ps[4], "userId="))
      case (Some(name), Some(url), Some(password), Some(notes), Some(userId)) =>
        Some(Account(name, userId, password, url, notes))
      case _ => None
  }

  function DecodeSegments(segments: seq<string>): Option<seq<Account>>
  {
    if |segments| == 0 then Some([])
    else match (DecodeSegment(segments[0]), DecodeSegments(segments[1..]))
      case (Some(a), Some(rest)) => Some([a] + rest)
      case _ => None
  }

  /** The accounts a save URL carries, if it is one: the login manager's address and one segment per account. */
  function DecodeSaveUrl(url: string): Option<seq<Account>>
  {
    var parts := SplitChars(url, QueryMark);
    if parts[0] != LoginManagerUrl then None else DecodeSegments(parts[1..])
  }

  lemma ParamFree(k: string, v: string, seps: set<char>)
    requires Free(k, seps) && Free(v, seps) && '=' !in seps
    ensures Free(Param(k, v), seps)
  {
    FreeAppend(k, "=", seps);
    FreeAppend(k + "=", v, seps);
  }

  lemma ParamValueOf(k: string, v: string)
    ensures ParamValue(Param(k, v), k + "=") == Some(v)
  {
    assert Param(k, v) == (k + "=") + v;
  }

  lemma SplitAmp(p: string, rest: string)
    requires Free(p, ParamMark)
    ensures SplitChars(Amp(p, rest), ParamMark) == [p] + SplitChars(rest, ParamMark)
  {
    var amp := Amp(p, rest);
    assert amp == p + ['&'] + rest;
    SplitCharsAt(p, '&', rest, ParamMark);
  }

  lemma AmpFree(p: string, rest: string, seps: set<char>)
    requires Free(p, seps) && Free(rest, seps) && '&' !in seps
    ensures Free(Amp(p, rest), seps)
  {
    FreeAppend(p, "&", seps);
    FreeAppend(p + "&", rest, seps);
  }

  /** A segment of URL-safe fields splits at `&` into its five parameters. */
  lemma SplitSegmentBody(a: Account)
    requires UrlSafeAccount(a)
    ensures SplitChars(SegmentBody(a), ParamMark) ==
      [Param("websiteName", a.name), Param("website", a.url), Param("password", a.password),
       Param("infoNotes", a.notes), Param("userId", a.userId)]
  {
    var p0, p1, p2, p3, p4 := Param("websiteName", a.name), Param("website", a.url), Param("password", a.password),
      Param("infoNotes", a.notes), Param("userId", a.userId);
    ParamFree("websiteName", a.name, ParamMark);
    ParamFree("website", a.url, ParamMark);
    ParamFree("password", a.password, ParamMark);
    ParamFree("infoNotes", a.notes, ParamMark);
    ParamFree("userId", a.userId, ParamMark);
    var t3 := Amp(p3, p4);
    var t2 := Amp(p2, t3);
    var t1 := Amp(p1, t2);
    SplitCharsFree(p4, ParamMark);
    SplitAmp(p3, p4);
    SplitAmp(p2, t3);
    SplitAmp(p1, t2);
    SplitAmp(p0, t1);
  }

  /** A segment of URL-safe fields holds no `?`. */
  lemma SegmentBodyFree(a: Account)
    requires UrlSafeAccount(a)
    ensures Free(SegmentBody(a), QueryMark)
  {
    var p0, p1, p2, p3, p4 := Param("websiteName", a.name), Param("website", a.url), Param("password", a.password),
      Param("infoNotes", a.notes), Param("userId", a.userId);
    ParamFree("websiteName", a.name, QueryMark);
    ParamFree("website", a.url, QueryMark);
    ParamFree("password", a.password, QueryMark);
    ParamFree("infoNotes", a.notes, QueryMark);
    ParamFree("userId", a.userId, QueryMark);
    AmpFree(p3, p4, QueryMark);
    AmpFree(p2, Amp(p3, p4), QueryMark);
    AmpFree(p1, Amp(p2, Amp(p3, p4)), QueryMark);
    AmpFree(p0, Amp(p1, Amp(p2, Amp(p3, p4))), QueryMark);
  }

  /** A segment of URL-safe fields decodes to its account. */
  lemma DecodeSegmentBody(a: Account)
    requires UrlSafeAccount(a)
    ensures Free(SegmentBody(a), QueryMark)
    ensures DecodeSegment(SegmentBody(a)) == Some(a)
  {
    SegmentBodyFree(a);
    SplitSegmentBody(a);
    ParamValueOf("websiteName", a.name);
    ParamValueOf("website", a.url);
    ParamValueOf("password", a.password);
    ParamValueOf("infoNotes", a.notes);
    ParamValueOf("userId", a.userId);
  }

  /** The segment bodies of the accounts, in order. */
  function SegmentBodies(accounts: seq<Account>): (r: seq<string>)
    ensures |r| == |accounts|
    ensures forall i :: 0 <= i < |accounts| ==> r[i] == SegmentBody(accounts[i])
  {
    seq(|accounts|, i requires 0 <= i < |accounts| => SegmentBody(accounts[i]))
  }

  lemma {:induction false} SplitQuery(x: string, accounts: seq<Account>)
    requires Free(x, QueryMark)
    requires forall i :: 0 <= i < |accounts| ==> UrlSafeAccount(accounts[i])
    ensures SplitChars(x + Query(accounts), QueryMark) == [x] + SegmentBodies(accounts)
    decreases |accounts|
  {
    if |accounts| == 0 {
      assert x + "" == x;
      SplitCharsFree(x, QueryMark);
    } else {
      var rest := accounts[1..];
      SegmentBodyFree(accounts[0]);
      assert forall i :: 0 <= i < |rest| ==> rest[i] == accounts[i + 1];
      SplitQuery(SegmentBody(accounts[0]), rest);
      SplitQueryStep(x, accounts);
    }
  }

  /** The split carries over one more account at the front of the query. */
  lemma SplitQueryStep(x: string, accounts: seq<Account>)
    requires Free(x, QueryMark) && |accounts| > 0
    requires SplitChars(SegmentBody(accounts[0]) + Query(accounts[1..]), QueryMark) ==
      [SegmentBody(accounts[0])] + SegmentBodies(accounts[1..])
    ensures SplitChars(x + Query(accounts), QueryMark) == [x] + SegmentBodies(accounts)
  {
    var a, rest := accounts[0], accounts[1..];
    var body, q := SegmentBody(a), Query(rest);
    SegmentBodiesCons(accounts);
    QueryCons(a, rest);
    ConcatAssoc(x, ['?'], body + q);
    SplitCharsAt(x, '?', body + q, QueryMark);
  }

  /** A non-empty batch is its first account followed by the rest, body by body. */
  lemma SegmentBodiesCons(accounts: seq<Account>)
    requires |accounts| > 0
    ensures [accounts[0]] + accounts[1..] == accounts
    ensures SegmentBodies(accounts) == [SegmentBody(accounts[0])] + SegmentBodies(accounts[1..])
  {
  }

  lemma QueryCons(a: Account, rest: seq<Account>)
    ensures Query([a] + rest) == ['?'] + (SegmentBody(a) + Query(rest))
  {
    QueryAppend([a], rest);
    assert [a][..0] == [];
    assert Query([a]) == Segment(a);
    ConcatAssoc(['?'], SegmentBody(a), Query(rest));
  }

  lemma {:induction false} DecodeSegmentsBodies(accounts: seq<Account>)
    requires forall i :: 0 <= i < |accounts| ==> UrlSafeAccount(accounts[i])
    ensures DecodeSegments(SegmentBodies(accounts)) == Some(accounts)
  {
    if |accounts| > 0 {
      DecodeSegmentBody(accounts[0]);
      DecodeSegmentsBodies(accounts[1..]);
      assert SegmentBodies(accounts)[1..] == SegmentBodies(accounts[1..]);
      assert [accounts[0]] + accounts[1..] == accounts;
    }
  }

  /** The login manager's address holds neither `?` nor `&`. */
  lemma LoginManagerUrlSafe()
    ensures Free(LoginManagerUrl, QueryMark)
  {
  }

  /** The URL `save` builds carries its accounts back intact when no field holds a `?` or an `&`. */
  lemma SaveRoundTrip(accounts: seq<Account>)
    requires forall i :: 0 <= i < |accounts| ==> UrlSafeAccount(accounts[i])
    ensures DecodeSaveUrl(SaveUrl(accounts)) == Some(accounts)
  {
    LoginManagerUrlSafe();
    SplitQuery(LoginManagerUrl, accounts);
    DecodeSegmentsBodies(accounts);
    assert ([LoginManagerUrl] + SegmentBodies(accounts))[1..] == SegmentBodies(accounts);
  }

  /** Text appended to the last value of a segment ends up at the end of the segment. */
  lemma SegmentBodyExtend(a: Account, x: string)
    ensures SegmentBody(a.(userId := a.userId + x)) == SegmentBody(a) + x
  {
    var p0, p1, p2, p3, p4 := Param("websiteName", a.name), Param("website", a.url), Param("password", a.password),
      Param("infoNotes", a.notes), Param("userId", a.userId);
    assert Param("userId", a.userId + x) == p4 + x;
    assert Amp(p3, p4 + x) == Amp(p3, p4) + x;
    assert Amp(p2, Amp(p3, p4) + x) == Amp(p2, Amp(p3, p4)) + x;
    assert Amp(p1, Amp(p2, Amp(p3, p4)) + x) == Amp(p1, Amp(p2, Amp(p3, p4))) + x;
    assert Amp(p0, Amp(p1, Amp(p2, Amp(p3, p4))) + x) == Amp(p0, Amp(p1, Amp(p2, Amp(p3, p4)))) + x;
  }

  /**
   * Nothing in the URL is escaped, so different databases can produce the
   * same request: one account whose user id ends in `?websiteName=…` is sent
   * exactly as two accounts would be.
   */
  lemma SaveUrlAmbiguous(a: Account, b: Account)
    ensures SaveUrl([a, b]) == SaveUrl([a.(userId := a.userId + Segment(b))])
    ensures [a, b] != [a.(userId := a.userId + Segment(b))]
  {
    var merged := a.(userId := a.userId + Segment(b));
    var base, sa, sb := SaveUrl([]), Segment(a), Segment(b);
    SaveUrlAppend([a], b);
    SaveUrlAppend([], a);
    SaveUrlAppend([], merged);
    assert [a] + [b] == [a, b];
    assert [] + [a] == [a];
    assert [] + [merged] == [merged];
    assert SaveUrl([a, b]) == (base + sa) + sb;
    SegmentMerge(a, b);
    assert SaveUrl([merged]) == base + (sa + sb);
    ConcatAssoc(base, sa, sb);
  }

  lemma SegmentMerge(a: Account, b: Account)
    ensures Segment(a.(userId := a.userId + Segment(b))) == Segment(a) + Segment(b)
  {
    var sb := Segment(b);
    SegmentBodyExtend(a, sb);
    assert "?" + (SegmentBody(a) + sb) == ("?" + SegmentBody(a)) + sb;
  }
}
