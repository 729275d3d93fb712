/**
 * The interaction-point ledger kept by the owner-only interaction commands.
 *
 * The database table of `UserInteraction` rows is modelled as a map from a
 * user id to that user's balance; balances are decimals, modelled as exact
 * `real` values.  Each command is a function or method from the ledger before the
 * command to the ledger after it, together with the reply or the error it
 * raises.
 */
module Interactions {
  import opened Wrappers
  import opened DecimalText

  type Ledger = map<int, real>

  /** The second argument of `add_decimal_value`: a `Decimal`, or text to be read as one. */
  datatype Addend = DecimalArg(value: real) | TextArg(text: string)

  /** The `decimal.InvalidOperation` raised for text that is not a decimal literal. */
  datatype InvalidOperation = InvalidOperation(text: string)

  /** The value an addend denotes, when it denotes one. */
  function AddendValue(add: Addend): (r: Option<real>)
    ensures add.DecimalArg? ==> r == Some(add.value)
    ensures add.TextArg? ==> r == ParseDecimal(add.text)
  {
    match add
    case DecimalArg(v) => Some(v)
    case TextArg(s) => ParseDecimal(s)
  }

  /** Decimal addition of `add` to the stored balance `ori`, modelled as `real` addition. */
  function AddDecimalValue(ori: real, add: Addend): (r: Result<real, InvalidOperation>)
    ensures add.DecimalArg? ==> r == Success(ori + add.value)
    ensures r.Success? <==> AddendValue(add).Some?
    ensures r.Success? ==> r.value == ori + AddendValue(add).value
    ensures r.Failure? ==> r.error == InvalidOperation(add.text)
  {
    match add
    case DecimalArg(v) => Success(ori + v)
    case TextArg(s) =>
      match ParseDecimal(s)
      case Some(v) => Success(ori + v)
      case None => Failure(InvalidOperation(s))
  }

  /** Adding a numeric string gives the same balance as adding the decimal it spells. */
  lemma AddDecimalValueTextAgrees(ori: real, s: string, v: real)
    requires ParseDecimal(s) == Some(v)
    ensures AddDecimalValue(ori, TextArg(s)) == AddDecimalValue(ori, DecimalArg(v))
  {
  }

  /**
   * The shared loop of `add_interaction`, `remove_interaction` and
   * `add_event`: the row of every listed member that has one is selected
   * once, however often the member is listed, and has `add` added to its
   * balance.  Members without an entry are not created.  Rows are updated
   * independently, so the order the database returns them in does not
   * matter and the loop visits them in member order.  Unreadable text
   * raises on the first selected row.
   */
  method UpdateSelected(l: Ledger, members: seq<int>, add: Addend) returns (r: Result<Ledger, InvalidOperation>)
    ensures r.Failure? <==> AddendValue(add).None? && exists u :: u in l && u in members
    ensures r.Success? ==> r.value.Keys == l.Keys
    ensures r.Success? ==> forall u :: u in l ==>
              r.value[u] == (if u in members then l[u] + AddendValue(add).value else l[u])
  {
    ghost var value := AddendValue(add);
    var acc := l;
    var seen: set<int> := {};
    var i := 0;
    while i < |members|
      invariant 0 <= i <= |members|
      invariant forall u :: u in seen <==> u in members[..i]
      invariant acc.Keys == l.Keys
      invariant value.None? ==> forall u :: u in seen ==> u !in l
      invariant forall u :: u in l ==> acc[u] == (if u in seen then l[u] + value.value else l[u])
    {
      var user := members[i];
      assert members[..i + 1] == members[..i] + [user];
      if user in l && user !in seen {
        var updated := AddDecimalValue(acc[user], add);
        if updated.Failure? {
          assert user in l && user in members;
          return Failure(updated.error);
        }
        acc := acc[user := updated.value];
      }
      seen := seen + {user};
      i := i + 1;
    }
    assert members[..i] == members;
    r := Success(acc);
  }

  /**
   * `add_interaction`: adds `count` (1 unless given) to the balance of every
   * listed member who has an entry.
   */
  method AddInteraction(l: Ledger, members: seq<int>, count: real := 1.0) returns (r: Ledger)
    ensures r.Keys == l.Keys
    ensures forall u :: u in l ==> r[u] == (if u in members then l[u] + count else l[u])
  {
    var updated := UpdateSelected(l, members, DecimalArg(count));
    r := updated.value;
  }

  /**
   * `remove_interaction` as written: subtracts `count` from the balance of
   * every listed member who has an entry.  The intended clamp at zero is a
   * comparison whose result is discarded, so balances can go negative.
   */
  method RemoveInteraction(l: Ledger, members: seq<int>, count: real := 1.0) returns (r: Ledger)
    ensures r.Keys == l.Keys
    ensures forall u :: u in l ==> r[u] == (if u in members then l[u] - count else l[u])
  {
    var updated := UpdateSelected(l, members, DecimalArg(count * -1.0));
    r := updated.value;
  }

  /**
   * Removing one point from a user who holds half a point leaves a balance
   * of -0.5: the command does not clamp at zero.
   */
  method RemoveInteractionGoesNegative() returns (balance: real)
    ensures balance == -0.5
  {
    var r := RemoveInteraction(map[7 := 0.5], [7], 1.0);
    balance := r[7];
  }

  /**
   * `remove_interaction` as its authors evidently intended: a balance that
   * would fall below zero is set to zero instead.
   */
  function RemoveInteractionClamped(l: Ledger, members: seq<int>, count: real := 1.0): (r: Ledger)
    ensures r.Keys == l.Keys
    ensures forall u :: u in l && u !in members ==> r[u] == l[u]
    ensures forall u :: u in l && u in members ==> r[u] >= 0.0
    ensures forall u :: u in l && u in members && l[u] - count >= 0.0 ==> r[u] == l[u] - count
    ensures forall u :: u in l && u in members && l[u] - count < 0.0 ==> r[u] == 0.0
  {
    map u | u in l :: if u in members then (if l[u] - count < 0.0 then 0.0 else l[u] - count) else l[u]
  }

  /** The corrected command keeps every balance non-negative. */
  lemma ClampedRemoveKeepsBalancesNonNegative(l: Ledger, members: seq<int>, count: real)
    requires forall u :: u in l ==> l[u] >= 0.0
    ensures forall u :: u in RemoveInteractionClamped(l, members, count) ==>
              RemoveInteractionClamped(l, members, count)[u] >= 0.0
  {
  }

  /** The text `add_event` passes to `add_decimal_value`. */
  const EventBonus: string := "0.5"

  /** `add_event`: every listed member who has an entry gets half a point. */
  method AddEvent(l: Ledger, members: seq<int>) returns (r: Ledger)
    ensures r.Keys == l.Keys
    ensures forall u :: u in l ==> r[u] == (if u in members then l[u] + 0.5 else l[u])
  {
    ParseHalf();
    var updated := UpdateSelected(l, members, TextArg(EventBonus));
    r := updated.value;
  }

  /** The participant statuses the reset distinguishes; only `Alive` keeps a ledger entry. */
  datatype Status = Alive | Dead

  /** A participant card: the user it belongs to and whether they are still alive. */
  datatype Participant = Participant(userId: int, status: Status)

  ghost function AliveIds(ps: seq<Participant>): set<int>
  {
    set i | 0 <= i < |ps| && ps[i].status == Alive :: ps[i].userId
  }

  /**
   * `reset_interactions`: deletes every row, then inserts a zero balance for
   * each participant that is alive.
   */
  method ResetInteractions(l: Ledger, ps: seq<Participant>) returns (r: Ledger)
    ensures r.Keys == AliveIds(ps)
    ensures forall u :: u in r ==> r[u] == 0.0
  {
    r := map[];
    var i := 0;
    while i < |ps|
      invariant 0 <= i <= |ps|
      invariant r.Keys == AliveIds(ps[..i])
      invariant forall u :: u in r ==> r[u] == 0.0
    {
      if ps[i].status == Alive {
        r := r[ps[i].userId := 0.0];
      }
      assert ps[..i + 1] == ps[..i] + [ps[i]];
      i := i + 1;
    }
    assert ps[..|ps|] == ps;
  }

  /** One ledger row as `list_interactions` reads it. */
  datatype Entry = Entry(userId: int, balance: real)

  ghost predicate SortedDesc(s: seq<Entry>)
  {
    forall i, j :: 0 <= i < j < |s| ==> s[i].balance >= s[j].balance
  }

  /** A list stays non-increasing when an entry no smaller than its head is put in front. */
  lemma ConsSorted(x: Entry, t: seq<Entry>)
    requires SortedDesc(t)
    requires |t| > 0 ==> x.balance >= t[0].balance
    ensures SortedDesc([x] + t)
  {
    var r := [x] + t;
    forall i, j | 0 <= i < j < |r|
      ensures r[i].balance >= r[j].balance
    {
      if i == 0 {
        assert r[j] == t[j - 1];
      } else {
        assert r[i] == t[i - 1] && r[j] == t[j - 1];
      }
    }
  }

  /**
   * Places `e` into a non-increasing list before every entry whose balance
   * is not larger, so that an earlier row stays ahead of later equal rows.
   */
  function InsertDesc(e: Entry, s: seq<Entry>): (r: seq<Entry>)
    requires SortedDesc(s)
    ensures SortedDesc(r)
    ensures multiset(r) == multiset(s) + multiset{e}
    ensures |r| == |s| + 1 && (r[0] == e || (|s| > 0 && r[0] == s[0]))
    decreases |s|
  {
    if |s| == 0 then [e]
    else if s[0].balance <= e.balance then [e] + s
    else
      var tail := InsertDesc(e, s[1..]);
      assert s == [s[0]] + s[1..];
      ConsSorted(s[0], tail);
      [s[0]] + tail
  }

  /**
   * `list_interactions`: the rows in the order the database returned them,
   * sorted by balance, largest first (Python's stable sort with `reverse=True`).
   */
  function ListInteractions(rows: seq<Entry>): (r: seq<Entry>)
    ensures SortedDesc(r)
    ensures multiset(r) == multiset(rows)
    decreases |rows|
  {
    if |rows| == 0 then []
    else
      assert rows == [rows[0]] + rows[1..];
      InsertDesc(rows[0], ListInteractions(rows[1..]))
  }

  /** `rows` holds every entry of `l` exactly once. */
  ghost predicate Enumerates(rows: seq<Entry>, l: Ledger)
  {
    && (forall i, j :: 0 <= i < j < |rows| ==> rows[i].userId != rows[j].userId)
    && (forall i :: 0 <= i < |rows| ==> rows[i].userId in l && l[rows[i].userId] == rows[i].balance)
    && (forall u :: u in l ==> exists i :: 0 <= i < |rows| && rows[i].userId == u)
  }

  /**
   * Listing the whole table shows each user of the ledger exactly once, with
   * that user's balance, in non-increasing balance order.
   */
  lemma ListingShowsLedger(l: Ledger, rows: seq<Entry>)
    requires Enumerates(rows, l)
    ensures var r := ListInteractions(rows);
            && SortedDesc(r)
            && (forall e: Entry :: e in r <==> e.userId in l && e.balance == l[e.userId])
            && (forall e :: e in r ==> multiset(r)[e] == 1)
  {
    var r := ListInteractions(rows);
    forall e | e in r
      ensures e.userId in l && e.balance == l[e.userId]
    {
      assert e in multiset(rows);
    }
    forall e: Entry | e.userId in l && e.balance == l[e.userId]
      ensures e in r
    {
      var i :| 0 <= i < |rows| && rows[i].userId == e.userId;
      assert rows[i] == e;
      assert e in multiset(r);
    }
    forall e | e in r
      ensures multiset(r)[e] == 1
    {
      DistinctRowsOccurOnce(rows, e);
    }
  }

  /** A row of a list with distinct user ids occurs in it at most once. */
  lemma {:induction false} DistinctRowsOccurOnce(rows: seq<Entry>, e: Entry)
    requires forall i, j :: 0 <= i < j < |rows| ==> rows[i].userId != rows[j].userId
    ensures multiset(rows)[e] <= 1
    decreases |rows|
  {
    if |rows| > 0 {
      assert rows == [rows[0]] + rows[1..];
      DistinctRowsOccurOnce(rows[1..], e);
      if rows[0] == e {
        assert e !in rows[1..] by {
          forall k | 0 <= k < |rows[1..]| ensures rows[1..][k] != e {
            assert rows[1..][k] == rows[k + 1];
          }
        }
      }
    }
  }

  /** The `BadArgument` errors of the player commands. */
  datatype BadArgument = NotInInteractions(userId: int) | AlreadyInInteractions(userId: int)

  /** A command's effect on the ledger and what it reports: the user mentioned, or the error raised. */
  datatype Outcome = Outcome(ledger: Ledger, reply: Result<int, BadArgument>)

  /**
   * `remove_player_from_interaction`: deletes the user's row; reports the
   * deletion, or raises when no row was deleted.
   */
  function RemovePlayer(l: Ledger, user: int): (o: Outcome)
    ensures o.ledger.Keys == l.Keys - {user}
    ensures forall u :: u in o.ledger ==> o.ledger[u] == l[u]
    ensures o.reply.Failure? <==> user !in l
    ensures o.reply.Failure? ==> o.ledger == l && o.reply.error == NotInInteractions(user)
    ensures o.reply.Success? ==> o.reply.value == user
  {
    var deleted := l - {user};
    var numDeleted := |l.Keys| - |deleted.Keys|;
    assert user in l ==> l.Keys == deleted.Keys + {user};
    if numDeleted > 0 then Outcome(deleted, Success(user))
    else Outcome(deleted, Failure(NotInInteractions(user)))
  }

  /**
   * `add_player_to_interaction`: raises and changes nothing when the user
   * already has a row; otherwise creates the row with balance 0.
   */
  function AddPlayer(l: Ledger, user: int): (o: Outcome)
    ensures o.reply.Failure? <==> user in l
    ensures o.reply.Failure? ==> o.ledger == l && o.reply.error == AlreadyInInteractions(user)
    ensures o.reply.Success? ==> o.ledger.Keys == l.Keys + {user} && o.ledger[user] == 0.0
    ensures forall u :: u in l && u != user ==> u in o.ledger && o.ledger[u] == l[u]
  {
    if user in l then Outcome(l, Failure(AlreadyInInteractions(user)))
    else Outcome(l[user := 0.0], Success(user))
  }

  /** Adding a new player and then removing them restores the ledger. */
  lemma AddThenRemoveRestores(l: Ledger, user: int)
    requires user !in l
    ensures RemovePlayer(AddPlayer(l, user).ledger, user) == Outcome(l, Success(user))
  {
  }

  /** Removing a player and adding them back leaves them with a zero balance. */
  lemma RemoveThenAddResets(l: Ledger, user: int)
    requires user in l
    ensures AddPlayer(RemovePlayer(l, user).ledger, user) == Outcome(l[user := 0.0], Success(user))
  {
  }

  /** The check failure `interactions` raises for a user without a row. */
  const NotInGame: string := "You aren't in the KG!"

  /** `interactions`: the caller's own balance, or the failure when they have no row. */
  function ViewInteractions(l: Ledger, author: int): (r: Result<real, string>)
    ensures r.Success? <==> author in l
    ensures r.Success? ==> r.value == l[author]
    ensures r.Failure? ==> r.error == NotInGame
  {
    if author in l then Success(l[author]) else Failure(NotInGame)
  }
}
