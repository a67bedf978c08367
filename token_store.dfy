/** user/repository/RefreshTokenRepository over the refresh_tokens table: the
    derived query findByToken and the JPQL bulk update revokeActiveTokensForUser.
    The table is a sequence of rows in insertion order; a row's position is its
    identity (the generated primary key is not modelled). */
module TokenStore {

  /** user/model/RefreshToken: the token text, its owner's id, when it expires (seconds)
      and whether it was revoked (user/model/RefreshToken.java is not part of this model;
      these are the fields AuthService reads and writes). */
  datatype RefreshToken = RefreshToken(token: string, userId: int, expiresAt: int, revoked: bool)

  /** Optional<RefreshToken> of a derived single-result query: one match, none, or several
      (Spring Data then throws IncorrectResultSizeDataAccessException). */
  datatype Lookup = Found(index: nat) | Absent | Ambiguous

  /** findByToken: the row whose token equals the argument exactly. */
  function FindByToken(rows: seq<RefreshToken>, token: string): (r: Lookup)
    ensures r.Found? ==> r.index < |rows| && rows[r.index].token == token
    ensures r.Found? ==> forall j :: 0 <= j < |rows| && j != r.index ==> rows[j].token != token
    ensures r.Absent? <==> forall j :: 0 <= j < |rows| ==> rows[j].token != token
    ensures r.Ambiguous? ==>
      exists i, j :: 0 <= i < j < |rows| && rows[i].token == token && rows[j].token == token
    decreases |rows|
  {
    if rows == [] then Absent
    else
      var r := FindByToken(rows[..|rows| - 1], token);
      if rows[|rows| - 1].token != token then r
      else match r
        case Absent => Found(|rows| - 1)
        case Found(i) => Ambiguous
        case Ambiguous => Ambiguous
  }

  /** A row the bulk update selects: owned by the user and not yet revoked. */
  predicate IsActiveFor(row: RefreshToken, userId: int)
  {
    row.userId == userId && !row.revoked
  }

  /** The table after `update RefreshToken rt set rt.revoked = true where rt.user.id =
      :userId and rt.revoked = false`. */
  function RevokedFor(rows: seq<RefreshToken>, userId: int): (r: seq<RefreshToken>)
    ensures |r| == |rows|
  {
    seq(|rows|, i requires 0 <= i < |rows| =>
      if IsActiveFor(rows[i], userId) then rows[i].(revoked := true) else rows[i])
  }

  /** The update count: how many rows the update selects. */
  function ActiveCount(rows: seq<RefreshToken>, userId: int): nat
  {
    if rows == [] then 0
    else ActiveCount(rows[..|rows| - 1], userId) + (if IsActiveFor(rows[|rows| - 1], userId) then 1 else 0)
  }

  /** The positions of the user's unrevoked rows. */
  function ActiveRows(rows: seq<RefreshToken>, userId: int): set<nat>
  {
    set i: nat | i < |rows| && IsActiveFor(rows[i], userId)
  }

  class RefreshTokenRepository {
    var rows: seq<RefreshToken>

    constructor ()
      ensures rows == []
    {
      rows := [];
    }

    /** save() of a new entity: an insert. */
    method Insert(row: RefreshToken)
      modifies this
      ensures rows == old(rows) + [row]
    {
      rows := rows + [row];
    }

    /** save() of an entity already stored: an update of its row. */
    method Update(index: nat, row: RefreshToken)
      requires index < |rows|
      modifies this
      ensures rows == old(rows)[index := row]
    {
      rows := rows[index := row];
    }

    /** revokeActiveTokensForUser: the bulk update and its update count. */
    method RevokeActiveTokensForUser(userId: int) returns (updated: int)
      modifies this
      ensures rows == RevokedFor(old(rows), userId)
      ensures updated == ActiveCount(old(rows), userId)
    {
      updated := ActiveCount(rows, userId);
      rows := RevokedFor(rows, userId);
    }
  }

  // ---- properties of the bulk update ----

  /** Afterwards the user has no unrevoked row. */
  lemma RevokeLeavesNoneActive(rows: seq<RefreshToken>, userId: int)
    ensures forall i :: 0 <= i < |RevokedFor(rows, userId)| ==> !IsActiveFor(RevokedFor(rows, userId)[i], userId)
    ensures ActiveRows(RevokedFor(rows, userId), userId) == {}
  {
  }

  /** Only the selected rows change, and only their revoked flag; no row is added or
      removed, and no row goes from revoked back to unrevoked. */
  lemma RevokeFrame(rows: seq<RefreshToken>, userId: int, i: int)
    requires 0 <= i < |rows|
    ensures var r := RevokedFor(rows, userId);
      && r[i].token == rows[i].token && r[i].userId == rows[i].userId && r[i].expiresAt == rows[i].expiresAt
      && (!IsActiveFor(rows[i], userId) ==> r[i] == rows[i])
      && r[i].revoked
           == (rows[i].revoked || rows[i].userId == userId)
  {
  }

  /** A second bulk update for the same user changes nothing and counts nothing. */
  lemma RevokeIdempotent(rows: seq<RefreshToken>, userId: int)
    ensures RevokedFor(RevokedFor(rows, userId), userId) == RevokedFor(rows, userId)
    ensures ActiveCount(RevokedFor(rows, userId), userId) == 0
  {
    RevokeLeavesNoneActive(rows, userId);
    NoneActiveCountsZero(RevokedFor(rows, userId), userId);
  }

  lemma {:induction false} NoneActiveCountsZero(rows: seq<RefreshToken>, userId: int)
    requires forall i :: 0 <= i < |rows| ==> !IsActiveFor(rows[i], userId)
    ensures ActiveCount(rows, userId) == 0
    decreases |rows|
  {
    if rows != [] {
      NoneActiveCountsZero(rows[..|rows| - 1], userId);
    }
  }

  /** The update count is the number of rows the update selects. */
  lemma {:induction false} ActiveCountIsCardinality(rows: seq<RefreshToken>, userId: int)
    ensures ActiveCount(rows, userId) == |ActiveRows(rows, userId)|
    decreases |rows|
  {
    if rows != [] {
      var init := rows[..|rows| - 1];
      ActiveCountIsCardinality(init, userId);
      var last := |rows| - 1;
      if IsActiveFor(rows[last], userId) {
        assert ActiveRows(rows, userId) == ActiveRows(init, userId) + {last};
      } else {
        assert ActiveRows(rows, userId) == ActiveRows(init, userId);
      }
    }
  }

  /** Appending a row keeps every earlier lookup result apart from the appended token. */
  lemma FindAfterInsert(rows: seq<RefreshToken>, row: RefreshToken, token: string)
    ensures token != row.token ==> FindByToken(rows + [row], token) == FindByToken(rows, token)
    ensures token == row.token && FindByToken(rows, token).Absent? ==>
      FindByToken(rows + [row], token) == Found(|rows|)
    ensures token == row.token && !FindByToken(rows, token).Absent? ==>
      FindByToken(rows + [row], token) == Ambiguous
  {
    assert (rows + [row])[..|rows|] == rows;
  }

  /** Changing a row's revoked flag keeps every lookup result. */
  lemma FindAfterRevoke(rows: seq<RefreshToken>, userId: int, token: string)
    ensures FindByToken(RevokedFor(rows, userId), token) == FindByToken(rows, token)
  {
    SameTokensSameLookup(rows, RevokedFor(rows, userId), token);
  }

  lemma {:induction false} SameTokensSameLookup(a: seq<RefreshToken>, b: seq<RefreshToken>, token: string)
    requires |a| == |b| && forall i :: 0 <= i < |a| ==> a[i].token == b[i].token
    ensures FindByToken(a, token) == FindByToken(b, token)
    decreases |a|
  {
    if a != [] {
      SameTokensSameLookup(a[..|a| - 1], b[..|b| - 1], token);
    }
  }
}
