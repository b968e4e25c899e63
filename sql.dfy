/**
 * The SELECT statements the handlers issue, read as functions over the rows of a
 * table. A statement without ORDER BY returns rows in table (insertion) order.
 */
module Sql {
  import opened Ascii
  import opened Records
  import Like

  /** The WHERE clauses on `certificatenumber` that occur in the handlers. */
  datatype Cond =
    | NumberIs(n: string)        // certificatenumber = n
    | LowerIs(n: string)         // LOWER(certificatenumber) = LOWER(n)
    | UpperIs(n: string)         // UPPER(certificatenumber) = UPPER(n)
    | NumberILike(p: string)     // certificatenumber ILIKE p

  predicate Holds(c: Cond, row: CertRow)
  {
    match c
    case NumberIs(n) => row.certificatenumber == n
    case LowerIs(n) => SameLower(row.certificatenumber, n)
    case UpperIs(n) => SameUpper(row.certificatenumber, n)
    case NumberILike(p) => Like.IMatches(row.certificatenumber, p)
  }

  /** `SELECT * FROM certificates WHERE c`. */
  function Where(rows: seq<CertRow>, c: Cond): (r: seq<CertRow>)
    ensures forall row :: row in r <==> row in rows && Holds(c, row)
    ensures |r| <= |rows|
    ensures |r| > 0 ==> exists i :: 0 <= i < |rows| && rows[i] == r[0] && NoneBefore(rows, c, i)
  {
    if rows == [] then []
    else if Holds(c, rows[0]) then
      assert NoneBefore(rows, c, 0);
      [rows[0]] + Where(rows[1..], c)
    else
      var rest := Where(rows[1..], c);
      if |rest| > 0 then
        var i :| 0 <= i < |rows[1..]| && rows[1..][i] == rest[0] && NoneBefore(rows[1..], c, i);
        assert NoneBefore(rows, c, i + 1) by {
          forall j | 0 <= j < i + 1 ensures !Holds(c, rows[j]) {
            if j > 0 { assert rows[j] == rows[1..][j - 1]; }
          }
        }
        rest
      else rest
  }

  /** No row before position `i` satisfies `c`. */
  predicate NoneBefore(rows: seq<CertRow>, c: Cond, i: nat)
    requires i <= |rows|
  {
    forall j :: 0 <= j < i ==> !Holds(c, rows[j])
  }

  /** The first matching row in table order, as `rows[0]` after a SELECT. */
  lemma WhereHeadIsFirstMatch(rows: seq<CertRow>, c: Cond, i: nat)
    requires i < |rows| && Holds(c, rows[i]) && NoneBefore(rows, c, i)
    ensures |Where(rows, c)| > 0 && Where(rows, c)[0] == rows[i]
  {
    var r := Where(rows, c);
    assert rows[i] in r;
    var k :| 0 <= k < |rows| && rows[k] == r[0] && NoneBefore(rows, c, k);
    assert Holds(c, r[0]);
  }

  predicate SortedDesc(rows: seq<CertRow>)
  {
    forall i, j :: 0 <= i < j < |rows| ==> rows[i].createdat >= rows[j].createdat
  }

  /** Places `x` before the first row that is not newer than it. */
  function InsertDesc(x: CertRow, rows: seq<CertRow>): (r: seq<CertRow>)
    ensures multiset(r) == multiset(rows) + multiset{x}
    ensures |r| == |rows| + 1
  {
    if rows == [] then [x]
    else if x.createdat >= rows[0].createdat then [x] + rows
    else
      assert rows == [rows[0]] + rows[1..];
      [rows[0]] + InsertDesc(x, rows[1..])
  }

  /** No row of `rows` is newer than `t`. */
  predicate NotNewerThan(rows: seq<CertRow>, t: nat)
  {
    forall k :: 0 <= k < |rows| ==> rows[k].createdat <= t
  }

  lemma {:induction false} InsertDescNotNewer(x: CertRow, rows: seq<CertRow>, t: nat)
    requires NotNewerThan(rows, t) && x.createdat <= t
    ensures NotNewerThan(InsertDesc(x, rows), t)
  {
    if rows != [] && x.createdat < rows[0].createdat {
      InsertDescNotNewer(x, rows[1..], t);
    }
  }

  /** Inserting into a newest-first list keeps it newest-first. */
  lemma {:induction false} InsertDescSorted(x: CertRow, rows: seq<CertRow>)
    requires SortedDesc(rows)
    ensures SortedDesc(InsertDesc(x, rows))
  {
    if rows != [] && x.createdat < rows[0].createdat {
      InsertDescSorted(x, rows[1..]);
      InsertDescNotNewer(x, rows[1..], rows[0].createdat);
    }
  }

  /** `ORDER BY createdat DESC`: newest first, the same rows. */
  function OrderByCreatedDesc(rows: seq<CertRow>): (r: seq<CertRow>)
    ensures SortedDesc(r)
    ensures multiset(r) == multiset(rows)
    ensures |r| == |rows|
  {
    if rows == [] then []
    else
      assert rows == [rows[0]] + rows[1..];
      var rest := OrderByCreatedDesc(rows[1..]);
      InsertDescSorted(rows[0], rest);
      InsertDesc(rows[0], rest)
  }

  /** The head of a newest-first list is at least as new as every row in it. */
  lemma HeadIsNewest(rows: seq<CertRow>, x: CertRow)
    requires SortedDesc(rows) && x in rows
    ensures rows[0].createdat >= x.createdat
  {
    var k :| 0 <= k < |rows| && rows[k] == x;
    if k > 0 { assert rows[0].createdat >= rows[k].createdat; }
  }

  /** The table read back to front: the last row first. */
  function Reverse(rows: seq<CertRow>): (r: seq<CertRow>)
    ensures |r| == |rows|
    ensures forall i :: 0 <= i < |rows| ==> r[i] == rows[|rows| - 1 - i]
  {
    if rows == [] then []
    else
      var rest := Reverse(rows[1..]);
      assert forall i :: 0 <= i < |rows| - 1 ==> rest[i] == rows[|rows| - 1 - i];
      rest + [rows[0]]
  }

  /** Rows in strictly increasing `createdat`, the order in which the table receives them. */
  predicate StrictlyOlderFirst(rows: seq<CertRow>)
  {
    forall i, j :: 0 <= i < j < |rows| ==> rows[i].createdat < rows[j].createdat
  }

  lemma {:induction false} ReverseElements(rows: seq<CertRow>)
    ensures forall x :: x in Reverse(rows) <==> x in rows
  {
    if rows != [] {
      ReverseElements(rows[1..]);
      assert rows == [rows[0]] + rows[1..];
    }
  }

  /**
   * Over a table whose rows were inserted in clock order, `ORDER BY createdat DESC`
   * is the table read back to front.
   */
  lemma {:induction false} OrderByCreatedDescOfInsertionOrder(rows: seq<CertRow>)
    requires StrictlyOlderFirst(rows)
    ensures OrderByCreatedDesc(rows) == Reverse(rows)
  {
    if rows != [] {
      var tail := rows[1..];
      assert StrictlyOlderFirst(tail) by {
        forall i, j | 0 <= i < j < |tail| ensures tail[i].createdat < tail[j].createdat {
          assert tail[i] == rows[i + 1] && tail[j] == rows[j + 1];
        }
      }
      OrderByCreatedDescOfInsertionOrder(tail);
      ReverseElements(tail);
      InsertOldest(rows[0], Reverse(tail));
    }
  }

  /** A row older than every row of a newest-first list goes to its end. */
  lemma {:induction false} InsertOldest(x: CertRow, rows: seq<CertRow>)
    requires forall y :: y in rows ==> x.createdat < y.createdat
    ensures InsertDesc(x, rows) == rows + [x]
  {
    if rows != [] {
      assert rows[0] in rows;
      var tail := rows[1..];
      assert forall y :: y in tail ==> y in rows;
      InsertOldest(x, tail);
      assert rows == [rows[0]] + tail;
    }
  }

  /** `SELECT * FROM users WHERE username = name`. */
  function UsersNamed(users: seq<UserRow>, name: string): (r: seq<UserRow>)
    ensures forall u :: u in r <==> u in users && u.username == name
    ensures |r| > 0 ==> exists i :: 0 <= i < |users| && users[i] == r[0] && NoUserBefore(users, name, i)
  {
    if users == [] then []
    else if users[0].username == name then
      assert NoUserBefore(users, name, 0);
      [users[0]] + UsersNamed(users[1..], name)
    else
      var rest := UsersNamed(users[1..], name);
      if |rest| > 0 then
        var i :| 0 <= i < |users[1..]| && users[1..][i] == rest[0] && NoUserBefore(users[1..], name, i);
        assert users[i + 1] == rest[0];
        assert NoUserBefore(users, name, i + 1) by {
          forall j | 0 <= j < i + 1 ensures users[j].username != name {
            if j > 0 { assert users[j] == users[1..][j - 1]; }
          }
        }
        rest
      else rest
  }

  predicate NoUserBefore(users: seq<UserRow>, name: string, i: nat)
    requires i <= |users|
  {
    forall j :: 0 <= j < i ==> users[j].username != name
  }
}
