/** The account service: credential lookup, listing, lookup by id, search, and the
    three operations that change the account table. */
module AccountStore {
  import opened Wrappers
  import opened Text
  import opened Dal
  import opened Listing

  predicate HasCredentials(a: SystemAccount, email: string, password: string) {
    a.accountEmail == email && a.accountPassword == password
  }

  /** `FirstOrDefault` over the table: the first account with these credentials. */
  function FirstWithCredentials(s: seq<SystemAccount>, email: string, password: string): (r: Option<SystemAccount>)
    ensures r.None? <==> forall a :: a in s ==> !HasCredentials(a, email, password)
    ensures r.Some? ==> exists k :: 0 <= k < |s| && s[k] == r.value && HasCredentials(s[k], email, password)
                                    && forall j :: 0 <= j < k ==> !HasCredentials(s[j], email, password)
  {
    if s == [] then None
    else if HasCredentials(s[0], email, password) then Some(s[0])
    else
      var r := FirstWithCredentials(s[1..], email, password);
      assert forall a :: a in s <==> a == s[0] || a in s[1..];
      if r.Some? then
        var k :| 0 <= k < |s[1..]| && s[1..][k] == r.value && HasCredentials(s[1..][k], email, password)
                 && forall j :: 0 <= j < k ==> !HasCredentials(s[1..][j], email, password);
        assert forall j :: 1 <= j < k + 1 ==> s[j] == s[1..][j - 1];
        assert s[k + 1] == r.value && HasCredentials(s[k + 1], email, password);
        r
      else r
  }

  /** `Find` by primary key. */
  function FindAccount(s: seq<SystemAccount>, id: int): (r: Option<SystemAccount>)
    ensures r.Some? <==> HasAccount(s, id)
    ensures r.Some? ==> r.value in s && r.value.accountId == id
  {
    if s == [] then None
    else if s[0].accountId == id then Some(s[0])
    else
      var r := FindAccount(s[1..], id);
      assert forall a :: a in s[1..] ==> a in s;
      assert forall a :: a in s && a != s[0] ==> a in s[1..];
      r
  }

  function NameContains(name: string): SystemAccount -> bool {
    (a: SystemAccount) => Contains(a.accountname, name)
  }

  function EmailContains(email: string): SystemAccount -> bool {
    (a: SystemAccount) => Contains(a.accountEmail, email)
  }

  /** The two search conditions together; a null or empty one holds of every account. */
  predicate MatchesSearch(a: SystemAccount, name: Option<string>, email: Option<string>) {
    && (IsNullOrEmpty(name) || Contains(a.accountname, name.value))
    && (IsNullOrEmpty(email) || Contains(a.accountEmail, email.value))
  }

  function WithoutAccount(s: seq<SystemAccount>, id: int): (r: seq<SystemAccount>)
    ensures forall a :: a in r <==> a in s && a.accountId != id
  {
    FilterCounts(s, (a: SystemAccount) => a.accountId != id);
    Filter(s, (a: SystemAccount) => a.accountId != id)
  }

  /** The row of `account.accountId` overwritten with `account`, every other row kept. */
  function ReplaceAccount(s: seq<SystemAccount>, account: SystemAccount): (r: seq<SystemAccount>)
    ensures |r| == |s|
    ensures forall k :: 0 <= k < |s| ==> r[k] == if s[k].accountId == account.accountId then account else s[k]
  {
    if s == [] then []
    else [if s[0].accountId == account.accountId then account else s[0]] + ReplaceAccount(s[1..], account)
  }

  predicate HasCreatedNews(articles: seq<NewsArticle>, id: int) {
    exists a :: a in articles && a.createdById == id
  }

  class AccountService {
    const context: NewsManagementDbContext

    constructor (context: NewsManagementDbContext)
      ensures this.context == context
    {
      this.context := context;
    }

    /** The first account whose email and password both equal the inputs; `None` exactly
        when there is no such account. */
    function Authenticate(email: string, password: string): (r: Option<SystemAccount>)
      reads context
      ensures r.None? <==> forall a :: a in context.systemAccounts ==> !HasCredentials(a, email, password)
      ensures r.Some? ==> r.value in context.systemAccounts && HasCredentials(r.value, email, password)
    {
      FirstWithCredentials(context.systemAccounts, email, password)
    }

    /** Every account, in table order. */
    function GetAll(): (r: seq<SystemAccount>)
      reads context
      ensures |r| == |context.systemAccounts|
      ensures forall k :: 0 <= k < |r| ==> r[k] == context.systemAccounts[k]
    {
      context.systemAccounts
    }

    function GetById(id: int): (r: Option<SystemAccount>)
      reads context
      ensures r.Some? <==> HasAccount(context.systemAccounts, id)
      ensures r.Some? ==> r.value in context.systemAccounts && r.value.accountId == id
    {
      FindAccount(context.systemAccounts, id)
    }

    /** The query narrowed by the name condition, then by the email condition: the
        accounts that meet both, each as often as in the table. Both empty keep the
        whole table in order. */
    function Search(name: Option<string>, email: Option<string>): (r: seq<SystemAccount>)
      reads context
      ensures forall a :: multiset(r)[a] == if MatchesSearch(a, name, email) then multiset(context.systemAccounts)[a] else 0
      ensures forall a :: a in r <==> a in context.systemAccounts && MatchesSearch(a, name, email)
      ensures IsNullOrEmpty(name) && IsNullOrEmpty(email) ==> r == context.systemAccounts
    {
      var all := context.systemAccounts;
      var byName := if !IsNullOrEmpty(name) then Filter(all, NameContains(name.value)) else all;
      var byEmail := if !IsNullOrEmpty(email) then Filter(byName, EmailContains(email.value)) else byName;
      SearchCounts(all, name, email, byName, byEmail);
      byEmail
    }

    /** Inserts `account` with the id it carries. */
    method Add(account: SystemAccount) returns (saved: bool)
      requires context.Valid()
      modifies context
      ensures context.Valid()
      ensures var t0 := old(context.Snapshot());
              var t1 := t0.(systemAccounts := t0.systemAccounts + [account]);
              && saved == WellFormed(t1)
              && context.Snapshot() == if saved then t1 else t0
    {
      var t0 := context.Snapshot();
      saved := context.SaveChanges(t0.(systemAccounts := t0.systemAccounts + [account]));
    }

    /** Overwrites the stored account that has `account`'s id. When no row has that id
        the database updates nothing and the save throws. */
    method Update(account: SystemAccount) returns (saved: bool)
      requires context.Valid()
      modifies context
      ensures context.Valid()
      ensures var t0 := old(context.Snapshot());
              var t1 := t0.(systemAccounts := ReplaceAccount(t0.systemAccounts, account));
              && saved == (HasAccount(t0.systemAccounts, account.accountId) && WellFormed(t1))
              && context.Snapshot() == if saved then t1 else t0
    {
      var t0 := context.Snapshot();
      if FindAccount(t0.systemAccounts, account.accountId).None? {
        return false;
      }
      saved := context.SaveChanges(t0.(systemAccounts := ReplaceAccount(t0.systemAccounts, account)));
    }

    /** Removes account `id` unless it is missing or has created an article; both of
        those return false. */
    method Delete(id: int) returns (deleted: bool)
      requires context.Valid()
      modifies context
      ensures context.Valid()
      ensures deleted == (HasAccount(old(context.systemAccounts), id)
                          && !HasCreatedNews(old(context.newsArticles), id))
      ensures var t0 := old(context.Snapshot());
              context.Snapshot() == if deleted then t0.(systemAccounts := WithoutAccount(t0.systemAccounts, id)) else t0
    {
      var account := GetById(id);
      if account.None? {
        return false;
      }
      if exists a :: a in context.newsArticles && a.createdById == id {
        return false;
      }
      var t0 := context.Snapshot();
      DeleteAccountAccepted(t0, id);
      deleted := context.SaveChanges(t0.(systemAccounts := WithoutAccount(t0.systemAccounts, id)));
    }
  }

  // ---------------------------------------------------------------------------
  // Lemmas

  lemma SearchCounts(all: seq<SystemAccount>, name: Option<string>, email: Option<string>,
                     byName: seq<SystemAccount>, byEmail: seq<SystemAccount>)
    requires byName == if !IsNullOrEmpty(name) then Filter(all, NameContains(name.value)) else all
    requires byEmail == if !IsNullOrEmpty(email) then Filter(byName, EmailContains(email.value)) else byName
    ensures forall a :: multiset(byEmail)[a] == if MatchesSearch(a, name, email) then multiset(all)[a] else 0
    ensures forall a :: a in byEmail <==> a in all && MatchesSearch(a, name, email)
  {
    if !IsNullOrEmpty(name) {
      FilterCounts(all, NameContains(name.value));
    }
    if !IsNullOrEmpty(email) {
      FilterCounts(byName, EmailContains(email.value));
    }
    forall a
      ensures a in byEmail <==> a in all && MatchesSearch(a, name, email)
    {
      assert a in byEmail <==> multiset(byEmail)[a] > 0;
      assert a in all <==> multiset(all)[a] > 0;
    }
  }

  /** Removing an account keeps the schema: no rule of this model refers to accounts. */
  lemma DeleteAccountAccepted(t: Tables, id: int)
    requires WellFormed(t)
    ensures WellFormed(t.(systemAccounts := WithoutAccount(t.systemAccounts, id)))
  {
    var keep := (a: SystemAccount) => a.accountId != id;
    FilterCounts(t.systemAccounts, keep);
    SubsequenceUniqueAccounts(t.systemAccounts, keep);
  }

  lemma {:induction false} SubsequenceUniqueAccounts(s: seq<SystemAccount>, keep: SystemAccount -> bool)
    requires UniqueAccountIds(s)
    ensures UniqueAccountIds(Filter(s, keep))
  {
    if s != [] {
      SubsequenceUniqueAccounts(s[1..], keep);
      FilterCounts(s[1..], keep);
      if keep(s[0]) {
        var r := Filter(s, keep);
        assert r == [s[0]] + Filter(s[1..], keep);
        forall j | 1 <= j < |r|
          ensures r[0].accountId != r[j].accountId
        {
          assert r[j] in s[1..];
        }
      }
    }
  }

  /** Add succeeds exactly when no account has the new id and the name fits its column. */
  lemma AddAccepted(t: Tables, account: SystemAccount)
    requires WellFormed(t)
    ensures WellFormed(t.(systemAccounts := t.systemAccounts + [account]))
            <==> !HasAccount(t.systemAccounts, account.accountId) && |account.accountname| <= MaxAccountnameLength
  {
    var s := t.systemAccounts + [account];
    assert account in s;
    if !HasAccount(t.systemAccounts, account.accountId) {
      forall i, j | 0 <= i < j < |s|
        ensures s[i].accountId != s[j].accountId
      {
        if j == |s| - 1 {
          assert s[i] in t.systemAccounts;
        }
      }
    } else {
      var b :| b in t.systemAccounts && b.accountId == account.accountId;
      var k :| 0 <= k < |t.systemAccounts| && t.systemAccounts[k] == b;
      assert s[k] == b && s[|s| - 1] == account;
    }
  }

  /** After a successful Add, looking the new id up gives the added account. */
  lemma AddThenGetById(s: seq<SystemAccount>, account: SystemAccount)
    requires !HasAccount(s, account.accountId)
    ensures FindAccount(s + [account], account.accountId) == Some(account)
  {
  }

  /** Update of an existing account succeeds exactly when the new name fits. */
  lemma UpdateAccepted(t: Tables, account: SystemAccount)
    requires WellFormed(t) && HasAccount(t.systemAccounts, account.accountId)
    ensures WellFormed(t.(systemAccounts := ReplaceAccount(t.systemAccounts, account)))
            <==> |account.accountname| <= MaxAccountnameLength
  {
    var s := ReplaceAccount(t.systemAccounts, account);
    ReplaceAccountUnique(t.systemAccounts, account);
    ReplaceAccountFacts(t.systemAccounts, account);
    assert (forall a :: a in s ==> |a.accountname| <= MaxAccountnameLength)
           <==> |account.accountname| <= MaxAccountnameLength;
    OtherAccounts(t, s);
  }

  /** After a successful Update a lookup of the id gives the new row, and every account
      with another id is still there. */
  lemma UpdateThenGetById(before: seq<SystemAccount>, account: SystemAccount)
    requires UniqueAccountIds(before) && HasAccount(before, account.accountId)
    ensures var s := ReplaceAccount(before, account);
            && FindAccount(s, account.accountId) == Some(account)
            && forall a :: a in before && a.accountId != account.accountId ==> a in s
  {
    var s := ReplaceAccount(before, account);
    ReplaceAccountFacts(before, account);
    var found := FindAccount(s, account.accountId).value;
    var kf :| 0 <= kf < |s| && s[kf] == found;
    assert before[kf].accountId == account.accountId;
  }

  /** A new account table keeps the schema exactly when its names fit, provided its ids
      are unique: no other rule involves accounts. */
  lemma OtherAccounts(t: Tables, s: seq<SystemAccount>)
    requires WellFormed(t) && UniqueAccountIds(s)
    ensures WellFormed(t.(systemAccounts := s)) <==> forall a :: a in s ==> |a.accountname| <= MaxAccountnameLength
  {
  }

  lemma ReplaceAccountUnique(before: seq<SystemAccount>, account: SystemAccount)
    requires UniqueAccountIds(before)
    ensures UniqueAccountIds(ReplaceAccount(before, account))
  {
    var s := ReplaceAccount(before, account);
    forall i, j | 0 <= i < j < |s|
      ensures s[i].accountId != s[j].accountId
    {
      assert before[i].accountId != before[j].accountId;
    }
  }

  lemma ReplaceAccountFacts(before: seq<SystemAccount>, account: SystemAccount)
    requires HasAccount(before, account.accountId)
    ensures var s := ReplaceAccount(before, account);
            && account in s
            && (forall a :: a in s ==> a == account || a in before)
            && forall a :: a in before && a.accountId != account.accountId ==> a in s
  {
    var s := ReplaceAccount(before, account);
    var b :| b in before && b.accountId == account.accountId;
    var kb :| 0 <= kb < |before| && before[kb] == b;
    assert s[kb] == account;
    forall a | a in s
      ensures a == account || a in before
    {
      var k :| 0 <= k < |s| && s[k] == a;
      assert before[k] in before;
    }
    forall a | a in before && a.accountId != account.accountId
      ensures a in s
    {
      var k :| 0 <= k < |before| && before[k] == a;
      assert s[k] == a;
    }
  }

  /** After a successful Delete, looking the id up gives nothing. */
  lemma DeleteThenGetById(s: seq<SystemAccount>, id: int)
    ensures FindAccount(WithoutAccount(s, id), id) == None
  {
  }
}
