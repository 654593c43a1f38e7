/** `DBsession.buildAccountList`: the username -> account id directory,
    folded from the rows of `select id,username from account where
    vf=true order by id asc`. */
module Accounts {

  /** One result row: `(id, username)`. */
  type AccountRow = (int, string)

  /** The order `order by id asc` delivers. */
  predicate AscendingById(rows: seq<AccountRow>) {
    forall i, j | 0 <= i < j < |rows| :: rows[i].0 <= rows[j].0
  }

  /** Row `i` is the last of the first `n` rows to carry its username. */
  predicate LastWithin(rows: seq<AccountRow>, i: int, n: int)
    requires 0 <= i < n <= |rows|
  {
    forall j | i < j < n :: rows[j].1 != rows[i].1
  }

  function Usernames(rows: seq<AccountRow>, n: int): set<string>
    requires 0 <= n <= |rows|
  {
    set i | 0 <= i < n :: rows[i].1
  }

  /** The loop `self.account[row['username']] = row['id']` over the rows,
      starting from the empty dict: every username in the rows is present,
      and it maps to the id of its last row, which for ascending input is
      its largest id. */
  method BuildAccountList(rows: seq<AccountRow>) returns (account: map<string, int>)
    ensures account.Keys == Usernames(rows, |rows|)
    ensures forall i | 0 <= i < |rows| && LastWithin(rows, i, |rows|) :: account[rows[i].1] == rows[i].0
    ensures AscendingById(rows) ==> forall i | 0 <= i < |rows| :: rows[i].0 <= account[rows[i].1]
  {
    account := map[];
    var n := 0;
    while n < |rows|
      invariant 0 <= n <= |rows|
      invariant account.Keys == Usernames(rows, n)
      invariant forall i | 0 <= i < n && LastWithin(rows, i, n) :: account[rows[i].1] == rows[i].0
      invariant AscendingById(rows) ==> forall i | 0 <= i < n :: rows[i].0 <= account[rows[i].1]
    {
      var (id, name) := rows[n];
      account := account[name := id];
      assert Usernames(rows, n + 1) == Usernames(rows, n) + {name};
      forall i | 0 <= i < n + 1 && LastWithin(rows, i, n + 1)
        ensures account[rows[i].1] == rows[i].0
      {
        if i < n {
          assert rows[n].1 != rows[i].1;
          assert LastWithin(rows, i, n);
        }
      }
      n := n + 1;
    }
  }
}
