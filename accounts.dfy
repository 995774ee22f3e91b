/**
 * Account records and the name-keyed collection a password database keeps
 * them in. The database's accounts are a HashMap from account name to
 * account; here they are a sequence (the map's iteration order) whose names
 * are distinct, with `Lookup`, `Remove` and `Put` playing the map's `get`,
 * `remove` and `put`.
 */
module Accounts {
  import opened Wrappers

  /** One credential entry: the five text fields of an AccountInformation. */
  datatype Account = Account(name: string, userId: string, password: string, url: string, notes: string)

  /** The options block: the remote location and the name of the account whose credentials reach it. */
  datatype DbOptions = DbOptions(remoteLocation: string, authDBEntry: string)

  const DefaultOptions := DbOptions("", "")

  /** A password database: its accounts, in iteration order, and its options. */
  datatype PasswordDatabase = PasswordDatabase(accounts: seq<Account>, options: DbOptions)

  /** The account names, position by position. */
  function Names(s: seq<Account>): (r: seq<string>)
    ensures |r| == |s|
    ensures forall i :: 0 <= i < |s| ==> r[i] == s[i].name
  {
    seq(|s|, i requires 0 <= i < |s| => s[i].name)
  }

  predicate Distinct(ns: seq<string>)
  {
    forall i, j :: 0 <= i < j < |ns| ==> ns[i] != ns[j]
  }

  /** The account stored under `name`, if any (the map's `get`, null when absent). */
  function Lookup(s: seq<Account>, name: string): Option<Account>
  {
    if |s| == 0 then None
    else if s[0].name == name then Some(s[0])
    else Lookup(s[1..], name)
  }

  /** The map's `remove`: every account named `name` is dropped, the rest keep their order. */
  function Remove(s: seq<Account>, name: string): seq<Account>
  {
    if |s| == 0 then []
    else if s[0].name == name then Remove(s[1..], name)
    else [s[0]] + Remove(s[1..], name)
  }

  /** The map's `put`: the account already stored under `a.name` is replaced, or `a` is appended. */
  function Put(s: seq<Account>, a: Account): seq<Account>
  {
    if |s| == 0 then [a]
    else if s[0].name == a.name then [a] + s[1..]
    else [s[0]] + Put(s[1..], a)
  }

  /** `deleteAccount(a.name)` followed by `addAccount(a)`, the way every caller adds an account. */
  function Upsert(s: seq<Account>, a: Account): seq<Account>
  {
    Put(Remove(s, a.name), a)
  }

  lemma NamesCons(a: Account, t: seq<Account>)
    ensures Names([a] + t) == [a.name] + Names(t)
  {
  }

  lemma NamesAppend(s: seq<Account>, t: seq<Account>)
    ensures Names(s + t) == Names(s) + Names(t)
  {
  }

  lemma DistinctCons(x: string, t: seq<string>)
    ensures Distinct([x] + t) <==> x !in t && Distinct(t)
  {
    if x !in t && Distinct(t) {
      forall i, j | 0 <= i < j < |[x] + t| ensures ([x] + t)[i] != ([x] + t)[j] {
        if i > 0 { assert ([x] + t)[i] == t[i - 1]; }
        else { assert ([x] + t)[j] == t[j - 1]; }
      }
    }
    if Distinct([x] + t) {
      forall k | 0 <= k < |t| ensures t[k] != x {
        assert ([x] + t)[0] == x && ([x] + t)[k + 1] == t[k];
      }
      forall i, j | 0 <= i < j < |t| ensures t[i] != t[j] {
        assert t[i] == ([x] + t)[i + 1] && t[j] == ([x] + t)[j + 1];
      }
    }
  }

  /** `get` finds an account exactly when its name is present, and what it finds carries that name. */
  lemma {:induction false} LookupFacts(s: seq<Account>, name: string)
    ensures Lookup(s, name).Some? <==> name in Names(s)
    ensures Lookup(s, name).Some? ==> Lookup(s, name).value in s && Lookup(s, name).value.name == name
  {
    if |s| > 0 {
      var t := s[1..];
      LookupFacts(t, name);
      assert Names(s) == [s[0].name] + Names(t);
      if s[0].name != name && Lookup(t, name).Some? {
        assert Lookup(t, name).value in s by {
          assert forall x :: x in t ==> x in s;
        }
      }
    }
  }

  /** After `remove(name)` the name is gone and every other name is looked up as before. */
  lemma {:induction false} RemoveLookup(s: seq<Account>, name: string)
    ensures Lookup(Remove(s, name), name) == None
    ensures forall m :: m != name ==> Lookup(Remove(s, name), m) == Lookup(s, m)
  {
    if |s| > 0 {
      RemoveLookup(s[1..], name);
    }
  }

  /** `remove(name)` drops exactly the occurrences of `name` from the names, and is the identity when the name is absent. */
  lemma {:induction false} RemoveNames(s: seq<Account>, name: string)
    ensures name !in Names(Remove(s, name))
    ensures multiset(Names(Remove(s, name))) == multiset(Names(s))[name := 0]
    ensures name !in Names(s) ==> Remove(s, name) == s
  {
    if |s| > 0 {
      var t := s[1..];
      RemoveNames(t, name);
      assert s == [s[0]] + t;
      NamesCons(s[0], t);
      var m := multiset(Names(t));
      assert multiset(Names(s)) == multiset{s[0].name} + m;
      if s[0].name != name {
        var r := Remove(t, name);
        NamesCons(s[0], r);
        assert multiset(Names([s[0]] + r)) == multiset{s[0].name} + multiset(Names(r));
      }
    }
  }

  /** `remove` keeps the names distinct. */
  lemma {:induction false} RemoveDistinct(s: seq<Account>, name: string)
    requires Distinct(Names(s))
    ensures Distinct(Names(Remove(s, name)))
  {
    if |s| > 0 {
      var t := s[1..];
      assert s == [s[0]] + t;
      NamesCons(s[0], t);
      DistinctCons(s[0].name, Names(t));
      RemoveDistinct(t, name);
      if s[0].name != name {
        RemoveNames(t, name);
        assert s[0].name !in multiset(Names(t));
        assert s[0].name !in multiset(Names(Remove(t, name)));
        NamesCons(s[0], Remove(t, name));
        DistinctCons(s[0].name, Names(Remove(t, name)));
      }
    }
  }

  /** After `put(a)` the name maps to `a` and every other name is looked up as before. */
  lemma {:induction false} PutLookup(s: seq<Account>, a: Account)
    ensures Lookup(Put(s, a), a.name) == Some(a)
    ensures forall m :: m != a.name ==> Lookup(Put(s, a), m) == Lookup(s, m)
  {
    if |s| > 0 {
      PutLookup(s[1..], a);
    }
  }

  /** `put` of an existing name leaves the names as they were; of a new name it appends. */
  lemma {:induction false} PutNames(s: seq<Account>, a: Account)
    ensures a.name in Names(s) ==> Names(Put(s, a)) == Names(s)
    ensures a.name !in Names(s) ==> Put(s, a) == s + [a]
  {
    if |s| > 0 {
      var t := s[1..];
      PutNames(t, a);
      assert s == [s[0]] + t;
      NamesCons(s[0], t);
      if s[0].name == a.name {
        NamesCons(a, t);
      } else {
        NamesCons(s[0], Put(t, a));
      }
    }
  }

  /** `put` keeps the names distinct. */
  lemma PutDistinct(s: seq<Account>, a: Account)
    requires Distinct(Names(s))
    ensures Distinct(Names(Put(s, a)))
  {
    PutNames(s, a);
    if a.name !in Names(s) {
      NamesAppend(s, [a]);
      forall i, j | 0 <= i < j < |s| + 1 ensures Names(s + [a])[i] != Names(s + [a])[j] {
        if j == |s| { assert Names(s)[i] in Names(s); }
      }
    }
  }

  /**
   * Adding an account as delete-then-add leaves exactly one account with its
   * name, stored value `a`, every other name unchanged; the count grows by
   * one only when the name was new.
   */
  lemma UpsertFacts(s: seq<Account>, a: Account)
    ensures multiset(Names(Upsert(s, a)))[a.name] == 1
    ensures Lookup(Upsert(s, a), a.name) == Some(a)
    ensures forall m :: m != a.name ==> Lookup(Upsert(s, a), m) == Lookup(s, m)
    ensures Upsert(s, a) == Remove(s, a.name) + [a]
    ensures Distinct(Names(s)) ==> Distinct(Names(Upsert(s, a)))
    ensures Distinct(Names(s)) ==> |Upsert(s, a)| == if a.name in Names(s) then |s| else |s| + 1
    ensures multiset(Names(Upsert(s, a))) == multiset(Names(s))[a.name := 1]
  {
    var r := Remove(s, a.name);
    RemoveLookup(s, a.name);
    RemoveNames(s, a.name);
    PutLookup(r, a);
    PutNames(r, a);
    NamesAppend(r, [a]);
    assert a.name !in multiset(Names(r));
    if Distinct(Names(s)) {
      RemoveDistinct(s, a.name);
      PutDistinct(r, a);
      RemovedOne(s, a.name);
    }
  }

  /** With distinct names, `remove` of a present name drops exactly one account. */
  lemma {:induction false} RemovedOne(s: seq<Account>, name: string)
    requires Distinct(Names(s))
    ensures |Remove(s, name)| == if name in Names(s) then |s| - 1 else |s|
  {
    if |s| > 0 {
      var t := s[1..];
      assert s == [s[0]] + t;
      NamesCons(s[0], t);
      DistinctCons(s[0].name, Names(t));
      RemovedOne(t, name);
      if s[0].name == name {
        RemoveNames(t, name);
      }
    }
  }

  /** The last account in `s` named `name`, if there is one. */
  function LastNamed(s: seq<Account>, name: string): Option<Account>
  {
    if |s| == 0 then None
    else if s[|s| - 1].name == name then Some(s[|s| - 1])
    else LastNamed(s[..|s| - 1], name)
  }

  /** In a sequence of distinct names each name occurs at most once. */
  lemma {:induction false} DistinctCount(ns: seq<string>, x: string)
    requires Distinct(ns)
    ensures multiset(ns)[x] <= 1
  {
    if |ns| > 0 {
      var t := ns[1..];
      assert ns == [ns[0]] + t;
      DistinctCons(ns[0], t);
      DistinctCount(t, x);
    }
  }

  /** `deleteAccount` followed by `addAccount` for each account in turn. */
  function UpsertAll(s: seq<Account>, added: seq<Account>): seq<Account>
  {
    if |added| == 0 then s else Upsert(UpsertAll(s, added[..|added| - 1]), added[|added| - 1])
  }

  /**
   * After upserting a batch, a name holds the last added account with that
   * name, or what it held before when the batch does not mention it; names
   * stay distinct.
   */
  lemma {:induction false} UpsertAllFacts(s: seq<Account>, added: seq<Account>)
    ensures forall n :: Lookup(UpsertAll(s, added), n) ==
                        (if LastNamed(added, n).Some? then LastNamed(added, n) else Lookup(s, n))
    ensures Distinct(Names(s)) ==> Distinct(Names(UpsertAll(s, added)))
  {
    if |added| > 0 {
      var init, a := added[..|added| - 1], added[|added| - 1];
      UpsertAllFacts(s, init);
      UpsertFacts(UpsertAll(s, init), a);
    }
  }
}
