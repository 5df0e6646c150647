/** The read-only user list page: a fetched list of users, a search box
    whose options are every username, and a table of the users whose name
    matches the search. */
module Users {

  import opened Seqs
  import opened Strings

  /** A customer account as the server returns it. */
  datatype User = User(id: string, username: string, email: string, address: string, contact: string)

  /** One entry of the search box: value and caption (the `label` property) are both the username. */
  datatype Choice = Choice(value: string, caption: string)

  /** One table row: the four displayed columns of a user. */
  datatype Row = Row(username: string, email: string, address: string, contact: string)

  predicate NameMatches(u: User, query: string)
  {
    Matches(u.username, query)
  }

  /** `filteredUsers`: the users whose lower-cased name contains the
      lower-cased query, in list order. */
  function FilterUsers(users: seq<User>, query: string): (r: seq<User>)
    ensures |r| <= |users|
    ensures forall i :: 0 <= i < |r| ==> r[i] in users && NameMatches(r[i], query)
    ensures forall i :: 0 <= i < |users| && NameMatches(users[i], query) ==> users[i] in r
    ensures forall u :: multiset(r)[u] == if NameMatches(u, query) then multiset(users)[u] else 0
  {
    forall x ensures multiset(Filter(users, u => NameMatches(u, query)))[x] == if NameMatches(x, query) then multiset(users)[x] else 0 {
      FilterMultiset(users, u => NameMatches(u, query), x);
    }
    Filter(users, u => NameMatches(u, query))
  }

  /** The filter keeps its input's order. */
  lemma FilterUsersIsSubsequence(users: seq<User>, query: string)
    ensures IsSubsequence(FilterUsers(users, query), users)
  {
    FilterIsSubsequence(users, u => NameMatches(u, query));
  }

  /** An empty search shows every user. */
  lemma FilterUsersEmptyQuery(users: seq<User>)
    ensures FilterUsers(users, "") == users
  {
    forall i | 0 <= i < |users| ensures NameMatches(users[i], "") {
      MatchesEmptyQuery(users[i].username);
    }
    FilterKeepsAll(users, u => NameMatches(u, ""));
  }

  /** Searching the search result again with the same query changes nothing. */
  lemma FilterUsersIdempotent(users: seq<User>, query: string)
    ensures FilterUsers(FilterUsers(users, query), query) == FilterUsers(users, query)
  {
    FilterIdempotent(users, u => NameMatches(u, query));
  }

  /** Filtering a list that arrives in two parts is filtering each part. */
  lemma FilterUsersAppend(a: seq<User>, b: seq<User>, query: string)
    ensures FilterUsers(a + b, query) == FilterUsers(a, query) + FilterUsers(b, query)
  {
    FilterAppend(a, b, u => NameMatches(u, query));
  }

  /** The search box offers one entry per fetched user (not per matching
      user), each with value and caption equal to the username. */
  function SearchChoices(users: seq<User>): (r: seq<Choice>)
    ensures |r| == |users|
    ensures forall i :: 0 <= i < |users| ==> r[i].value == users[i].username && r[i].caption == r[i].value
  {
    Map(users, (u: User) => Choice(u.username, u.username))
  }

  /** Picking the `i`-th suggestion as the search value keeps the `i`-th
      user in the table. */
  lemma PickedChoiceListsUser(users: seq<User>, i: nat)
    requires i < |users|
    ensures users[i] in FilterUsers(users, SearchChoices(users)[i].value)
  {
    MatchesItself(users[i].username);
  }

  /** One table row per matching user, in filtered order. */
  function Rows(users: seq<User>, query: string): (r: seq<Row>)
    ensures |r| == |FilterUsers(users, query)|
    ensures forall i :: 0 <= i < |r| ==>
      var u := FilterUsers(users, query)[i];
      r[i] == Row(u.username, u.email, u.address, u.contact)
    ensures forall i :: 0 <= i < |r| ==> Matches(r[i].username, query)
  {
    Map(FilterUsers(users, query), (u: User) => Row(u.username, u.email, u.address, u.contact))
  }
}
