/** One-time codes: the magic_links table, the check of a code, and runs of requests. */
module MagicLinks {
  import opened Wrappers

  const MAX_ATTEMPTS := 5
  const LIFETIME := 15 * 60

  datatype Link = Link(id: int, token: string, email: string, expiresAt: int, usedAt: Option<int>, attempts: nat,
                       createdAt: int)

  // ----- the statements on rows -----

  /** Unexpired and unused. */
  predicate Live(l: Link, now: int) {
    l.expiresAt > now && l.usedAt.None?
  }

  predicate Pending(l: Link, email: string, now: int) {
    l.email == email && Live(l, now)
  }

  function Change(rows: seq<Link>, f: Link -> Link): (out: seq<Link>)
    ensures |out| == |rows| && forall i :: 0 <= i < |rows| ==> out[i] == f(rows[i])
  {
    seq(|rows|, i requires 0 <= i < |rows| => f(rows[i]))
  }

  function Invalidate(email: string, now: int): Link -> Link {
    (l: Link) => if Pending(l, email, now) then l.(usedAt := Some(now)) else l
  }

  function Used(id: int, now: int): Link -> Link {
    (l: Link) => if l.id == id then l.(usedAt := Some(now)) else l
  }

  function OneMore(id: int): Link -> Link {
    (l: Link) => if l.id == id then l.(attempts := l.attempts + 1) else l
  }

  function Unexpired(rows: seq<Link>, now: int): seq<Link> {
    if rows == [] then [] else (if rows[0].expiresAt <= now then [] else [rows[0]]) + Unexpired(rows[1..], now)
  }

  /** The pending row of an email that was created last. */
  function Latest(rows: seq<Link>, email: string, now: int): (l: Option<Link>)
    ensures l.None? ==> forall k :: k in rows ==> !Pending(k, email, now)
    ensures l.Some? ==> l.value in rows && Pending(l.value, email, now)
    ensures l.Some? ==> forall k :: k in rows && Pending(k, email, now) ==> k.createdAt <= l.value.createdAt
  {
    if rows == [] then None
    else
      var rest := Latest(rows[1..], email, now);
      if Pending(rows[0], email, now) && (rest.None? || rows[0].createdAt > rest.value.createdAt)
      then Some(rows[0]) else rest
  }

  predicate TokenTaken(rows: seq<Link>, token: string) {
    exists i :: 0 <= i < |rows| && rows[i].token == token
  }

  // ----- requests -----

  datatype Table = Table(rows: seq<Link>, nextId: int)

  /** What a request did to the code it concerned. */
  datatype Outcome = Issued(id: int) | NotIssued | NoCode | WrongTry(id: int) | Exhausted(id: int) | Accepted(id: int)
                   | MarkFailed(id: int) | Purged

  /** Create: earlier codes of the email are invalidated first, even if no new one can then be stored. */
  function DoCreate(t: Table, email: string, code: Option<string>, now: int): (Table, Outcome) {
    var rows := Change(t.rows, Invalidate(email, now));
    if code.None? || TokenTaken(rows, code.value) then (Table(rows, t.nextId), NotIssued)
    else
      (Table(rows + [Link(t.nextId, code.value, email, now + LIFETIME, None, 0, now)], t.nextId + 1), Issued(t.nextId))
  }

  function Marked(rows: seq<Link>, id: int, now: int, markOk: bool): seq<Link> {
    if markOk then Change(rows, Used(id, now)) else rows
  }

  /** validateCode; markOk says whether its MarkUsed statement, if it comes to one, succeeds. */
  function DoValidate(t: Table, email: string, code: string, now: int, markOk: bool): (Table, Outcome) {
    if email == "" || code == "" then (t, NoCode)
    else
      match Latest(t.rows, email, now)
      case None => (t, NoCode)
      case Some(l) =>
        if l.attempts >= MAX_ATTEMPTS then (Table(Marked(t.rows, l.id, now, markOk), t.nextId), Exhausted(l.id))
        else if l.token != code then
          var tried := Change(t.rows, OneMore(l.id));
          (Table(if l.attempts + 1 >= MAX_ATTEMPTS then Marked(tried, l.id, now, markOk) else tried, t.nextId),
           WrongTry(l.id))
        else if markOk then (Table(Change(t.rows, Used(l.id, now)), t.nextId), Accepted(l.id))
        else (t, MarkFailed(l.id))
  }

  function DoPurge(t: Table, now: int): (Table, Outcome) {
    (Table(Unexpired(t.rows, now), t.nextId), Purged)
  }

  // ----- the same as methods on the stored table -----

  class MagicLinkStore {
    var rows: seq<Link>
    var nextId: int

    constructor ()
      ensures rows == [] && nextId == 1
    {
      rows, nextId := [], 1;
    }

    function View(): Table
      reads this
    {
      Table(rows, nextId)
    }

    /** code is the generated one; none if the random source fails. */
    method Create(email: string, code: Option<string>, now: int) returns (link: Result<Link>)
      modifies this
      ensures View() == DoCreate(old(View()), email, code, now).0
      ensures link.Ok? <==> DoCreate(old(View()), email, code, now).1.Issued?
      ensures link.Ok? ==>
                link.value == rows[|rows| - 1] && link.value.id == old(nextId) && Pending(link.value, email, now)
    {
      rows := Change(rows, Invalidate(email, now));
      if code.None? {
        return Err("generate code");
      }
      if TokenTaken(rows, code.value) {
        return Err("insert magic link");
      }
      var l := Link(nextId, code.value, email, now + LIFETIME, None, 0, now);
      rows := rows + [l];
      nextId := nextId + 1;
      return Ok(l);
    }

    method GetLatestByEmail(email: string, now: int) returns (l: Option<Link>)
      ensures l == Latest(rows, email, now)
    {
      l := None;
      var i := |rows|;
      while i > 0
        invariant 0 <= i <= |rows| && l == Latest(rows[i..], email, now)
      {
        i := i - 1;
        assert rows[i..][1..] == rows[i + 1..];
        if Pending(rows[i], email, now) && (l.None? || rows[i].createdAt > l.value.createdAt) {
          l := Some(rows[i]);
        }
      }
    }

    method IncrementAttempts(id: int) returns (attempts: Option<nat>)
      modifies `rows
      ensures rows == Change(old(rows), OneMore(id))
      ensures attempts.Some? <==> exists l :: l in rows && l.id == id
      ensures attempts.Some? ==> exists l :: l in rows && l.id == id && attempts.value == l.attempts
    {
      rows := Change(rows, OneMore(id));
      for i := 0 to |rows|
        invariant forall j :: 0 <= j < i ==> rows[j].id != id
      {
        if rows[i].id == id {
          assert rows[i] in rows;
          return Some(rows[i].attempts);
        }
      }
      return None;
    }

    method MarkUsed(id: int, now: int, ok: bool) returns (done: bool)
      modifies `rows
      ensures done == ok && rows == Marked(old(rows), id, now, ok)
    {
      if ok {
        rows := Change(rows, Used(id, now));
      }
      return ok;
    }

    method DeleteExpired(now: int) returns (count: nat)
      modifies `rows
      ensures rows == Unexpired(old(rows), now) && count == |old(rows)| - |rows|
      ensures forall l :: l in rows <==> l in old(rows) && l.expiresAt > now
    {
      var kept: seq<Link> := [];
      var i := 0;
      while i < |rows|
        invariant 0 <= i <= |rows| && rows == old(rows) && |kept| <= i
        invariant kept + Unexpired(rows[i..], now) == Unexpired(rows, now)
      {
        assert rows[i..][1..] == rows[i + 1..];
        ghost var before := kept;
        if !(rows[i].expiresAt <= now) {
          kept := kept + [rows[i]];
        }
        assert kept + Unexpired(rows[i + 1..], now) == before + Unexpired(rows[i..], now);
        i := i + 1;
      }
      assert rows[i..] == [];
      assert kept + [] == kept;
      KeptIsUnexpired(rows, kept, now);
      count := |rows| - |kept|;
      rows := kept;
    }
  }

  ghost predicate DistinctIds(rows: seq<Link>) {
    forall i, j :: 0 <= i < j < |rows| ==> rows[i].id != rows[j].id
  }

  /** AuthHandler.validateCode: the accepted row, or nothing. */
  method ValidateCode(store: MagicLinkStore, email: string, code: string, now: int, markOk: bool)
    returns (link: Option<Link>, outcome: Outcome)
    requires DistinctIds(store.rows)
    modifies store`rows
    ensures (store.View(), outcome) == DoValidate(old(store.View()), email, code, now, markOk)
    ensures link.Some? <==> outcome.Accepted?
    ensures link.Some? ==> link.value in old(store.rows) && link.value.id == outcome.id && link.value.token == code
                           && Pending(link.value, email, now) && link.value.attempts < MAX_ATTEMPTS
  {
    if email == "" || code == "" {
      return None, NoCode;
    }
    var latest := store.GetLatestByEmail(email, now);
    if latest.None? {
      return None, NoCode;
    }
    var l := latest.value;
    if l.attempts >= MAX_ATTEMPTS {
      var done := store.MarkUsed(l.id, now, markOk);
      return None, Exhausted(l.id);
    }
    if l.token != code {
      ghost var before := store.rows;
      var newAttempts := store.IncrementAttempts(l.id);
      CountedOnce(before, l);
      if newAttempts.Some? && newAttempts.value >= MAX_ATTEMPTS {
        var done := store.MarkUsed(l.id, now, markOk);
      }
      return None, WrongTry(l.id);
    }
    var done := store.MarkUsed(l.id, now, markOk);
    if !done {
      return None, MarkFailed(l.id);
    }
    return latest, Accepted(l.id);
  }

  lemma CountedOnce(rows: seq<Link>, l: Link)
    requires DistinctIds(rows) && l in rows
    ensures l.(attempts := l.attempts + 1) in Change(rows, OneMore(l.id))
    ensures forall k :: k in Change(rows, OneMore(l.id)) && k.id == l.id ==> k.attempts == l.attempts + 1
  {
    var i :| 0 <= i < |rows| && rows[i] == l;
    assert Change(rows, OneMore(l.id))[i] in Change(rows, OneMore(l.id));
  }

  // ----- runs -----

  datatype Request =
    | Ask(email: string, generated: Option<string>, now: int)
    | Try(email: string, code: string, now: int, markOk: bool)
    | Clean(now: int)

  function Do(t: Table, q: Request): (Table, Outcome) {
    match q
    case Ask(email, code, now) => DoCreate(t, email, code, now)
    case Try(email, code, now, markOk) => DoValidate(t, email, code, now, markOk)
    case Clean(now) => DoPurge(t, now)
  }

  function After(t: Table, qs: seq<Request>): Table
    decreases |qs|
  {
    if qs == [] then t else After(Do(t, qs[0]).0, qs[1..])
  }

  function Outcomes(t: Table, qs: seq<Request>): (os: seq<Outcome>)
    ensures |os| == |qs|
    decreases |qs|
  {
    if qs == [] then [] else [Do(t, qs[0]).1] + Outcomes(Do(t, qs[0]).0, qs[1..])
  }

  ghost predicate Monotone(qs: seq<Request>, from: int) {
    && (forall i :: 0 <= i < |qs| ==> from <= qs[i].now)
    && (forall i, j :: 0 <= i < j < |qs| ==> qs[i].now <= qs[j].now)
  }

  const EMPTY := Table([], 1)

  /** In every reachable table: one live code per email, at most five tries each, ids never reused. */
  ghost predicate Inv(t: Table, now: int) {
    && DistinctIds(t.rows)
    && (forall i :: 0 <= i < |t.rows| ==> t.rows[i].id < t.nextId && t.rows[i].attempts <= MAX_ATTEMPTS)
    && (forall i, j :: 0 <= i < j < |t.rows| && t.rows[i].email == t.rows[j].email ==>
          !(Live(t.rows[i], now) && Live(t.rows[j], now)))
    && (forall i :: 0 <= i < |t.rows| ==>
          t.rows[i].createdAt <= now && t.rows[i].expiresAt == t.rows[i].createdAt + LIFETIME)
  }

  lemma InvLater(t: Table, now: int, later: int)
    requires Inv(t, now) && now <= later
    ensures Inv(t, later)
  {
  }

  lemma CreateKeepsInv(t: Table, email: string, code: Option<string>, now: int)
    requires Inv(t, now)
    ensures Inv(DoCreate(t, email, code, now).0, now)
  {
    InvalidateKeepsInv(t, email, now);
    var rows := Change(t.rows, Invalidate(email, now));
    if code.Some? && !TokenTaken(rows, code.value) {
      hide Change, TokenTaken, Live;
      AddKeepsInv(Table(rows, t.nextId), Link(t.nextId, code.value, email, now + LIFETIME, None, 0, now), now);
    }
  }

  lemma InvalidateKeepsInv(t: Table, email: string, now: int)
    requires Inv(t, now)
    ensures var rows := Change(t.rows, Invalidate(email, now));
            Inv(Table(rows, t.nextId), now)
            && forall i :: 0 <= i < |rows| && rows[i].email == email ==> !Live(rows[i], now)
  {
  }

  lemma AddKeepsInv(t: Table, l: Link, now: int)
    requires Inv(t, now) && l.id == t.nextId && l.attempts == 0 && l.createdAt == now && l.expiresAt == now + LIFETIME
    requires forall i :: 0 <= i < |t.rows| && t.rows[i].email == l.email ==> !Live(t.rows[i], now)
    ensures Inv(Table(t.rows + [l], t.nextId + 1), now)
  {
    hide Live;
  }

  lemma ChangeKeepsInv(t: Table, f: Link -> Link, now: int)
    requires Inv(t, now)
    requires forall l: Link :: f(l).id == l.id && f(l).email == l.email && (Live(f(l), now) ==> Live(l, now))
    requires forall l: Link :: f(l).createdAt == l.createdAt && f(l).expiresAt == l.expiresAt
    requires forall l :: l in t.rows ==> f(l).attempts <= MAX_ATTEMPTS
    ensures Inv(Table(Change(t.rows, f), t.nextId), now)
  {
    var rows := Change(t.rows, f);
    assert forall i :: 0 <= i < |rows| ==> t.rows[i] in t.rows;
  }

  lemma ValidateKeepsInv(t: Table, email: string, code: string, now: int, markOk: bool)
    requires Inv(t, now)
    ensures Inv(DoValidate(t, email, code, now, markOk).0, now)
  {
    var latest := Latest(t.rows, email, now);
    if latest.Some? {
      var l := latest.value;
      UniqueRow(t, l, now);
      hide Inv, Live;
      ChangeKeepsInv(t, Used(l.id, now), now) by { LiveMeans(now); }
      if l.attempts < MAX_ATTEMPTS {
        ChangeKeepsInv(t, OneMore(l.id), now) by { LiveMeans(now); }
        var tried := Table(Change(t.rows, OneMore(l.id)), t.nextId);
        AttemptsBounded(tried, now);
        ChangeKeepsInv(tried, Used(l.id, now), now) by { LiveMeans(now); }
      }
    }
  }

  lemma LiveMeans(now: int)
    ensures forall l: Link :: Live(l, now) <==> l.expiresAt > now && l.usedAt.None?
  {
  }

  lemma AttemptsBounded(t: Table, now: int)
    requires Inv(t, now)
    ensures forall l :: l in t.rows ==> l.attempts <= MAX_ATTEMPTS
  {
  }

  lemma UniqueRow(t: Table, l: Link, now: int)
    requires Inv(t, now) && l in t.rows
    ensures forall k :: k in t.rows && k.id == l.id ==> k == l
    ensures forall k :: k in t.rows ==> k.attempts <= MAX_ATTEMPTS
  {
  }

  lemma {:induction false} UnexpiredHas(rows: seq<Link>, now: int)
    ensures forall l :: l in Unexpired(rows, now) <==> l in rows && l.expiresAt > now
  {
    if rows != [] {
      UnexpiredHas(rows[1..], now);
      assert rows == [rows[0]] + rows[1..];
    }
  }

  lemma KeptIsUnexpired(rows: seq<Link>, kept: seq<Link>, now: int)
    requires kept == Unexpired(rows, now)
    ensures forall l :: l in kept <==> l in rows && l.expiresAt > now
  {
    hide Unexpired;
    UnexpiredHas(rows, now);
  }

  /** Two rows that may stand in one table. */
  predicate Apart(k: Link, l: Link, now: int) {
    k.id != l.id && (k.email == l.email ==> !(Live(k, now) && Live(l, now)))
  }

  ghost predicate AllApart(rows: seq<Link>, now: int) {
    forall i, j :: 0 <= i < j < |rows| ==> Apart(rows[i], rows[j], now)
  }

  lemma {:induction false} PurgeApart(rows: seq<Link>, now: int)
    requires AllApart(rows, now)
    ensures AllApart(Unexpired(rows, now), now)
  {
    hide Apart;
    if rows != [] {
      var rest := rows[1..];
      PurgeApart(rest, now);
      UnexpiredHas(rest, now);
      var kept := Unexpired(rest, now);
      forall j | 0 <= j < |kept| ensures Apart(rows[0], kept[j], now) {
        assert kept[j] in rest;
        var m :| 0 <= m < |rest| && rest[m] == kept[j];
        assert rows[m + 1] == kept[j];
      }
    }
  }

  lemma PurgeKeepsInv(t: Table, now: int)
    requires Inv(t, now)
    ensures Inv(DoPurge(t, now).0, now)
  {
    hide Unexpired, Live;
    var kept := Unexpired(t.rows, now);
    UnexpiredHas(t.rows, now);
    PurgeApart(t.rows, now);
    forall i | 0 <= i < |kept|
      ensures kept[i].id < t.nextId && kept[i].attempts <= MAX_ATTEMPTS
      ensures kept[i].createdAt <= now && kept[i].expiresAt == kept[i].createdAt + LIFETIME
    {
      assert kept[i] in kept;
    }
    assert forall i, j :: 0 <= i < j < |kept| ==> Apart(kept[i], kept[j], now);
  }

  lemma StepKeepsInv(t: Table, q: Request, now: int)
    requires Inv(t, now) && now <= q.now
    ensures Inv(Do(t, q).0, q.now)
  {
    hide Inv, DoCreate, DoValidate;
    InvLater(t, now, q.now);
    match q
    case Ask(email, code, at) => CreateKeepsInv(t, email, code, at);
    case Try(email, code, at, markOk) => ValidateKeepsInv(t, email, code, at, markOk);
    case Clean(at) => PurgeKeepsInv(t, at);
  }

  /** The invariant holds after every run, so in every reachable table. */
  lemma {:induction false} RunKeepsInv(t: Table, qs: seq<Request>, now: int, end: int)
    requires Inv(t, now) && Monotone(qs, now) && now <= end && forall i :: 0 <= i < |qs| ==> qs[i].now <= end
    ensures Inv(After(t, qs), end)
    decreases |qs|
  {
    hide Inv, Do;
    if qs == [] {
      InvLater(t, now, end);
    } else {
      StepKeepsInv(t, qs[0], now);
      assert Monotone(qs[1..], qs[0].now);
      RunKeepsInv(Do(t, qs[0]).0, qs[1..], qs[0].now, end);
    }
  }

  // ----- codes that are done for -----

  /** The code can never be accepted again: it was issued, and it is used, expired, tried out or deleted. */
  ghost predicate Spent(t: Table, id: int, now: int) {
    id < t.nextId && forall l :: l in t.rows && l.id == id ==> !Live(l, now) || l.attempts >= MAX_ATTEMPTS
  }

  lemma CreateKeepsSpent(t: Table, email: string, code: Option<string>, now: int, id: int)
    requires Spent(t, id, now)
    ensures Spent(DoCreate(t, email, code, now).0, id, now)
  {
    var rows := Change(t.rows, Invalidate(email, now));
    forall l | l in rows && l.id == id ensures !Live(l, now) || l.attempts >= MAX_ATTEMPTS {
      var i :| 0 <= i < |rows| && rows[i] == l;
      assert t.rows[i] in t.rows;
    }
  }

  lemma ChangeKeepsSpent(t: Table, f: Link -> Link, now: int, id: int)
    requires Spent(t, id, now)
    requires forall l: Link :: f(l).id == l.id && f(l).attempts >= l.attempts && (Live(f(l), now) ==> Live(l, now))
    ensures Spent(Table(Change(t.rows, f), t.nextId), id, now)
  {
    var rows := Change(t.rows, f);
    forall l | l in rows && l.id == id ensures !Live(l, now) || l.attempts >= MAX_ATTEMPTS {
      var i :| 0 <= i < |rows| && rows[i] == l;
      assert t.rows[i] in t.rows;
    }
  }

  lemma ValidateKeepsSpent(t: Table, email: string, code: string, now: int, markOk: bool, id: int)
    requires Spent(t, id, now)
    ensures Spent(DoValidate(t, email, code, now, markOk).0, id, now)
    ensures DoValidate(t, email, code, now, markOk).1 != Accepted(id)
  {
    hide Spent;
    var latest := Latest(t.rows, email, now);
    if latest.Some? {
      var l := latest.value;
      ChangeKeepsSpent(t, Used(l.id, now), now, id);
      ChangeKeepsSpent(t, OneMore(l.id), now, id);
      ChangeKeepsSpent(Table(Change(t.rows, OneMore(l.id)), t.nextId), Used(l.id, now), now, id);
      assert l.id == id && l.attempts < MAX_ATTEMPTS ==> false by { SpentIsNotPending(t, l, id, now); }
    }
  }

  lemma SpentIsNotPending(t: Table, l: Link, id: int, now: int)
    requires Spent(t, id, now) && l in t.rows && Live(l, now)
    ensures l.id == id ==> l.attempts >= MAX_ATTEMPTS
  {
  }

  lemma StepKeepsSpent(t: Table, q: Request, id: int, now: int)
    requires Spent(t, id, now) && now <= q.now
    ensures Spent(Do(t, q).0, id, q.now) && Do(t, q).1 != Accepted(id)
  {
    hide DoCreate, DoValidate;
    match q
    case Ask(email, code, at) => CreateKeepsSpent(t, email, code, at, id); CreateAcceptsNothing(t, email, code, at);
    case Try(email, code, at, markOk) => ValidateKeepsSpent(t, email, code, at, markOk, id);
    case Clean(at) => UnexpiredHas(t.rows, at);
  }

  lemma CreateAcceptsNothing(t: Table, email: string, code: Option<string>, now: int)
    ensures !DoCreate(t, email, code, now).1.Accepted?
  {
  }

  /** A spent code is never accepted in any continuation. */
  lemma {:induction false} SpentForEver(t: Table, qs: seq<Request>, id: int, now: int, j: nat)
    requires Spent(t, id, now) && Monotone(qs, now) && j < |qs|
    ensures Outcomes(t, qs)[j] != Accepted(id)
    decreases |qs|
  {
    hide Spent, Do;
    StepKeepsSpent(t, qs[0], id, now);
    if j > 0 {
      assert Monotone(qs[1..], qs[0].now);
      SpentForEver(Do(t, qs[0]).0, qs[1..], id, qs[0].now, j - 1);
    }
  }

  /** Accepting a code spends it. */
  lemma AcceptSpends(t: Table, q: Request)
    requires Inv(t, q.now) && Do(t, q).1.Accepted?
    ensures Spent(Do(t, q).0, Do(t, q).1.id, q.now)
  {
    var l := Latest(t.rows, q.email, q.now).value;
    var rows := Change(t.rows, Used(l.id, q.now));
    forall k | k in rows && k.id == l.id ensures !Live(k, q.now) {
      var i :| 0 <= i < |rows| && rows[i] == k;
    }
  }

  /** Each code is accepted at most once in a run. */
  lemma {:induction false} AcceptedAtMostOnce(t: Table, qs: seq<Request>, now: int, i: nat, j: nat, id: int)
    requires Inv(t, now) && Monotone(qs, now) && i < j < |qs|
    ensures !(Outcomes(t, qs)[i] == Accepted(id) && Outcomes(t, qs)[j] == Accepted(id))
    decreases |qs|
  {
    hide Inv, Do, Spent;
    var u := Do(t, qs[0]).0;
    StepKeepsInv(t, qs[0], now);
    assert Monotone(qs[1..], qs[0].now);
    if i > 0 {
      AcceptedAtMostOnce(u, qs[1..], qs[0].now, i - 1, j - 1, id);
    } else if Outcomes(t, qs)[0] == Accepted(id) {
      InvLater(t, now, qs[0].now);
      AcceptSpends(t, qs[0]);
      SpentForEver(u, qs[1..], id, qs[0].now, j - 1);
    }
  }

  // ----- wrong tries -----

  /** How often a list of outcomes counts a wrong try of one code. */
  function WrongTries(os: seq<Outcome>, id: int): nat {
    if os == [] then 0 else (if os[0] == WrongTry(id) then 1 else 0) + WrongTries(os[1..], id)
  }

  /** The tries recorded for a code; five for one that is issued and gone or can no longer be tried. */
  ghost predicate TriesAtLeast(t: Table, id: int, n: nat, now: int) {
    n > 0 ==> id < t.nextId && forall l :: l in t.rows && l.id == id && Live(l, now) ==> l.attempts >= n
  }

  lemma CreateKeepsTries(t: Table, email: string, code: Option<string>, now: int, id: int, n: nat)
    requires TriesAtLeast(t, id, n, now)
    ensures TriesAtLeast(DoCreate(t, email, code, now).0, id, n, now)
  {
    var rows := Change(t.rows, Invalidate(email, now));
    forall l | l in rows && l.id == id && Live(l, now) ensures l.attempts >= n {
      var i :| 0 <= i < |rows| && rows[i] == l;
      assert t.rows[i] in t.rows;
    }
  }

  lemma ChangeKeepsTries(t: Table, f: Link -> Link, now: int, id: int, n: nat)
    requires TriesAtLeast(t, id, n, now)
    requires forall l: Link :: f(l).id == l.id && f(l).attempts >= l.attempts && (Live(f(l), now) ==> Live(l, now))
    ensures TriesAtLeast(Table(Change(t.rows, f), t.nextId), id, n, now)
  {
    var rows := Change(t.rows, f);
    forall l | l in rows && l.id == id && Live(l, now) ensures l.attempts >= n {
      var i :| 0 <= i < |rows| && rows[i] == l;
      assert t.rows[i] in t.rows;
    }
  }

  lemma OneMoreTry(t: Table, now: int, id: int, n: nat)
    requires TriesAtLeast(t, id, n, now) && id < t.nextId
    ensures TriesAtLeast(Table(Change(t.rows, OneMore(id)), t.nextId), id, n + 1, now)
  {
    var rows := Change(t.rows, OneMore(id));
    forall l | l in rows && l.id == id && Live(l, now) ensures l.attempts >= n + 1 {
      var i :| 0 <= i < |rows| && rows[i] == l;
      assert t.rows[i] in t.rows;
    }
  }

  lemma ValidateKeepsTries(t: Table, email: string, code: string, now: int, markOk: bool, id: int, n: nat)
    requires Inv(t, now) && TriesAtLeast(t, id, n, now)
    ensures var (u, o) := DoValidate(t, email, code, now, markOk);
            TriesAtLeast(u, id, if o == WrongTry(id) then n + 1 else n, now)
  {
    var latest := Latest(t.rows, email, now);
    if latest.Some? {
      var l := latest.value;
      assert l.id < t.nextId;
      hide TriesAtLeast, Inv;
      ChangeKeepsTries(t, Used(l.id, now), now, id, n);
      ChangeKeepsTries(t, OneMore(l.id), now, id, n);
      var tried := Table(Change(t.rows, OneMore(l.id)), t.nextId);
      ChangeKeepsTries(tried, Used(l.id, now), now, id, n);
      if l.id == id {
        OneMoreTry(t, now, id, n);
        ChangeKeepsTries(tried, Used(l.id, now), now, id, n + 1);
      }
    }
  }

  lemma StepKeepsTries(t: Table, q: Request, id: int, n: nat, now: int)
    requires Inv(t, now) && TriesAtLeast(t, id, n, now) && now <= q.now
    ensures TriesAtLeast(Do(t, q).0, id, if Do(t, q).1 == WrongTry(id) then n + 1 else n, q.now)
  {
    hide DoCreate, DoValidate, Inv;
    InvLater(t, now, q.now);
    match q
    case Ask(email, code, at) => CreateKeepsTries(t, email, code, at, id, n); CreateTriesNothing(t, email, code, at);
    case Try(email, code, at, markOk) => ValidateKeepsTries(t, email, code, at, markOk, id, n);
    case Clean(at) => UnexpiredHas(t.rows, at);
  }

  lemma CreateTriesNothing(t: Table, email: string, code: Option<string>, now: int)
    ensures !DoCreate(t, email, code, now).1.WrongTry?
  {
  }

  lemma TriedOutIsSpent(t: Table, id: int, n: nat, now: int)
    requires TriesAtLeast(t, id, n, now) && n >= MAX_ATTEMPTS
    ensures Spent(t, id, now)
  {
  }

  // ----- wrong codes, counted on the requests -----

  /** The code's row is in the table, neither used nor expired. */
  ghost predicate LiveRow(t: Table, l: Link, now: int) {
    exists k :: k in t.rows && k.id == l.id && k.usedAt.None? && k.expiresAt > now
  }

  /** A request tries another, non-empty code for the email while the code can be used. */
  ghost predicate Guess(t: Table, q: Request, l: Link) {
    q.Try? && q.email == l.email && q.code != "" && q.code != l.token && LiveRow(t, l, q.now)
  }

  /** How many requests of a run do. */
  ghost function Guesses(t: Table, qs: seq<Request>, l: Link): nat
    decreases |qs|
  {
    if qs == [] then 0 else (if Guess(t, qs[0], l) then 1 else 0) + Guesses(Do(t, qs[0]).0, qs[1..], l)
  }

  /** Whatever row has the code's id carries its email and token. */
  ghost predicate KnownAs(t: Table, l: Link) {
    l.id < t.nextId && forall k :: k in t.rows && k.id == l.id ==> k.email == l.email && k.token == l.token
  }

  lemma ChangeKeepsKnown(t: Table, f: Link -> Link, l: Link)
    requires KnownAs(t, l)
    requires forall k: Link :: f(k).id == k.id && f(k).email == k.email && f(k).token == k.token
    ensures KnownAs(Table(Change(t.rows, f), t.nextId), l)
  {
    var rows := Change(t.rows, f);
    forall k | k in rows && k.id == l.id ensures k.email == l.email && k.token == l.token {
      var i :| 0 <= i < |rows| && rows[i] == k;
      assert t.rows[i] in t.rows;
    }
  }

  lemma StepKeepsKnown(t: Table, q: Request, l: Link)
    requires KnownAs(t, l)
    ensures KnownAs(Do(t, q).0, l)
  {
    hide KnownAs, Change;
    match q
    case Ask(email, code, now) =>
      ChangeKeepsKnown(t, Invalidate(email, now), l);
      AddKeepsKnown(Table(Change(t.rows, Invalidate(email, now)), t.nextId), l);
    case Try(email, code, now, _) =>
      var latest := Latest(t.rows, email, now);
      if latest.Some? {
        var id := latest.value.id;
        ChangeKeepsKnown(t, Used(id, now), l);
        ChangeKeepsKnown(t, OneMore(id), l);
        ChangeKeepsKnown(Table(Change(t.rows, OneMore(id)), t.nextId), Used(id, now), l);
      }
    case Clean(now) => PurgeKeepsKnown(t, now, l);
  }

  lemma AddKeepsKnown(t: Table, l: Link)
    requires KnownAs(t, l)
    ensures forall k: Link :: k.id == t.nextId ==> KnownAs(Table(t.rows + [k], t.nextId + 1), l)
  {
  }

  lemma PurgeKeepsKnown(t: Table, now: int, l: Link)
    requires KnownAs(t, l)
    ensures KnownAs(DoPurge(t, now).0, l)
  {
    hide Unexpired;
    UnexpiredHas(t.rows, now);
  }

  /**
    A wrong code is counted: one more try on the row it was tried on, which is also
    marked used if that makes five and the statement succeeds.
  */
  lemma WrongCodeIsCounted(t: Table, l: Link, code: string, now: int, markOk: bool)
    requires Inv(t, now) && l in t.rows && l.usedAt.None? && l.expiresAt > now && l.attempts < 5
    requires l.email != "" && code != "" && code != l.token
    ensures var u := Do(t, Try(l.email, code, now, markOk)).0;
            l.(attempts := l.attempts + 1, usedAt := if l.attempts == 4 && markOk then Some(now) else None) in u.rows
    ensures var u := Do(t, Try(l.email, code, now, markOk)).0;
            |u.rows| == |t.rows| && forall i :: 0 <= i < |t.rows| && t.rows[i].id != l.id ==> u.rows[i] == t.rows[i]
  {
    PendingRow(t, l, now);
    KeptByChange(t.rows, OneMore(l.id), l);
    KeptByChange(Change(t.rows, OneMore(l.id)), Used(l.id, now), l.(attempts := l.attempts + 1));
  }

  lemma GuessCounts(t: Table, q: Request, l: Link, n: nat, now: int)
    requires Inv(t, now) && KnownAs(t, l) && TriesAtLeast(t, l.id, n, now) && now <= q.now
    requires l.email != "" && Guess(t, q, l) && n < 5
    ensures TriesAtLeast(Do(t, q).0, l.id, n + 1, q.now)
  {
    hide Do, KnownAs;
    InvLater(t, now, q.now);
    var k :| k in t.rows && k.id == l.id && k.usedAt.None? && k.expiresAt > q.now;
    KnownRow(t, l, k);
    UniqueRow(t, k, q.now);
    if k.attempts < 5 {
      WrongIsWrongTry(t, q, k);
      StepKeepsTries(t, q, l.id, n, now);
    } else {
      StepKeepsTries(t, q, l.id, n + 1, q.now);
    }
  }

  lemma KnownRow(t: Table, l: Link, k: Link)
    requires KnownAs(t, l) && k in t.rows && k.id == l.id
    ensures k.email == l.email && k.token == l.token
  {
  }

  lemma WrongIsWrongTry(t: Table, q: Request, k: Link)
    requires Inv(t, q.now) && k in t.rows && Live(k, q.now) && k.attempts < 5 && k.email != ""
    requires q.Try? && q.email == k.email && q.code != "" && q.code != k.token
    ensures Do(t, q).1 == WrongTry(k.id)
  {
    PendingRow(t, k, q.now);
  }

  lemma {:induction false} GuessesAddUp(t: Table, qs: seq<Request>, l: Link, n: nat, now: int, j: nat)
    requires Inv(t, now) && KnownAs(t, l) && TriesAtLeast(t, l.id, n, now) && Monotone(qs, now)
    requires l.email != "" && j < |qs| && n <= 5 && n + Guesses(t, qs[..j], l) >= 5
    ensures Outcomes(t, qs)[j] != Accepted(l.id)
    decreases |qs|
  {
    hide Inv, Do, TriesAtLeast, Spent, KnownAs, Guess;
    if n >= 5 {
      TriedOutIsSpent(t, l.id, n, now);
      SpentForEver(t, qs, l.id, now, j);
    } else {
      var q := qs[0];
      var u := Do(t, q).0;
      assert qs[..j][0] == q && qs[..j][1..] == qs[1..][..j - 1];
      StepKeepsInv(t, q, now);
      StepKeepsKnown(t, q, l);
      StepKeepsTries(t, q, l.id, n, now);
      TriesAtLeastLess(u, l.id, n, q.now, Do(t, q).1 == WrongTry(l.id));
      if Guess(t, q, l) { GuessCounts(t, q, l, n, now); }
      assert Monotone(qs[1..], q.now);
      GuessesAddUp(u, qs[1..], l, if Guess(t, q, l) then n + 1 else n, q.now, j - 1);
    }
  }

  lemma TriesAtLeastLess(t: Table, id: int, n: nat, now: int, more: bool)
    requires TriesAtLeast(t, id, if more then n + 1 else n, now)
    ensures TriesAtLeast(t, id, n, now)
  {
  }

  /**
    A code is never accepted after five requests for its email with another code, made
    while it could be used, in any run from any reachable table, whether or not the
    statements that mark codes used succeeded.
  */
  lemma {:induction false} FiveWrongTriesEndACode(t: Table, qs: seq<Request>, l: Link, now: int, j: nat)
    requires Inv(t, now) && l in t.rows && l.email != "" && Monotone(qs, now) && j < |qs|
    requires Guesses(t, qs[..j], l) >= 5
    ensures Outcomes(t, qs)[j] != Accepted(l.id)
  {
    hide Guesses, Do;
    UniqueRow(t, l, now);
    RowKnown(t, l, now);
    GuessesAddUp(t, qs, l, 0, now, j);
  }

  lemma RowKnown(t: Table, l: Link, now: int)
    requires Inv(t, now) && l in t.rows
    ensures KnownAs(t, l)
  {
    UniqueRow(t, l, now);
    var i :| 0 <= i < |t.rows| && t.rows[i] == l;
  }

  /** Without an email, a code, or a row of the email that can be used, nothing changes and nothing is accepted. */
  lemma NothingToTry(t: Table, email: string, code: string, now: int, markOk: bool)
    requires email == "" || code == ""
             || forall k :: k in t.rows && k.email == email ==> k.usedAt.Some? || k.expiresAt <= now
    ensures var (u, o) := Do(t, Try(email, code, now, markOk)); u == t && !o.Accepted?
  {
  }

  /**
    A row with five tries is not accepted, and the right code for any other is accepted
    exactly if the statement that marks the row used succeeds; in both cases the row is
    marked if it does, and nothing changes if it does not.
  */
  lemma RightOrTriedOut(t: Table, l: Link, code: string, now: int, markOk: bool)
    requires Inv(t, now) && l in t.rows && l.usedAt.None? && l.expiresAt > now
    requires l.email != "" && code != "" && (l.attempts >= 5 || code == l.token)
    ensures var (u, o) := Do(t, Try(l.email, code, now, markOk));
            && (o.Accepted? <==> l.attempts < 5 && markOk)
            && (if markOk then l.(usedAt := Some(now)) in u.rows else u == t)
  {
    PendingRow(t, l, now);
    KeptByChange(t.rows, Used(l.id, now), l);
  }

  // ----- asking for a code -----

  /**
    Asking issues the code, if there is one and no row has it: a new row for the email,
    unused, untried, good for 900 seconds. In any case no other row of the email can be
    used afterwards, and the rows of other emails stay as they are.
  */
  lemma AskingIssues(t: Table, email: string, code: Option<string>, now: int)
    requires Inv(t, now)
    ensures var (u, o) := Do(t, Ask(email, code, now));
            && o == (if code.Some? && (forall k :: k in t.rows ==> k.token != code.value)
                     then Issued(t.nextId) else NotIssued)
            && (o == Issued(t.nextId) ==> Link(t.nextId, code.value, email, now + 900, None, 0, now) in u.rows)
            && (forall k :: k in u.rows && k.email == email && k.usedAt.None? && k.expiresAt > now ==>
                  o == Issued(t.nextId) && k.id == t.nextId)
            && (forall k: Link :: k.email != email ==> (k in u.rows <==> k in t.rows))
  {
    hide Change, TokenTaken, Inv, Live;
    var rows := Change(t.rows, Invalidate(email, now));
    Invalidated(t, email, now);
    if code.Some? { TakenIff(t, email, code, now); }
  }

  /** After the invalidation no row of the email can be used; other emails' rows are as before. */
  lemma Invalidated(t: Table, email: string, now: int)
    ensures var rows := Change(t.rows, Invalidate(email, now));
            && (forall k: Link :: k.email != email ==> (k in rows <==> k in t.rows))
            && (forall k :: k in rows && k.email == email ==> !(k.usedAt.None? && k.expiresAt > now))
  {
    var rows := Change(t.rows, Invalidate(email, now));
    forall k: Link | k.email != email ensures k in rows <==> k in t.rows {
      if k in rows { var i :| 0 <= i < |rows| && rows[i] == k; assert t.rows[i] in t.rows; }
      if k in t.rows { var i :| 0 <= i < |t.rows| && t.rows[i] == k; assert rows[i] in rows; }
    }
    forall k | k in rows && k.email == email ensures !Live(k, now) {
      var i :| 0 <= i < |rows| && rows[i] == k;
    }
  }

  lemma TakenIff(t: Table, email: string, code: Option<string>, now: int)
    requires code.Some?
    ensures TokenTaken(Change(t.rows, Invalidate(email, now)), code.value)
       <==> exists k :: k in t.rows && k.token == code.value
  {
    var rows := Change(t.rows, Invalidate(email, now));
    if k :| k in t.rows && k.token == code.value {
      var i :| 0 <= i < |t.rows| && t.rows[i] == k;
      assert rows[i].token == code.value;
    }
    if TokenTaken(rows, code.value) {
      var i :| 0 <= i < |rows| && rows[i].token == code.value;
      assert t.rows[i] in t.rows;
    }
  }

  /** A cleanup drops the expired rows and keeps every other one. */
  lemma CleaningDropsExpired(t: Table, now: int)
    ensures forall k :: k in Do(t, Clean(now)).0.rows <==> k in t.rows && k.expiresAt > now
  {
    UnexpiredHas(t.rows, now);
  }

  /** Asking for a new code ends every earlier code of that email, even when the new one cannot be stored. */
  lemma AskingEndsOlderCodes(t: Table, email: string, code: Option<string>, now: int, l: Link, qs: seq<Request>, j: nat)
    requires Inv(t, now) && l in t.rows && l.email == email
    requires Monotone(qs, now) && j < |qs|
    ensures Outcomes(DoCreate(t, email, code, now).0, qs)[j] != Accepted(l.id)
  {
    hide Spent, Inv, DoCreate;
    AskingSpends(t, email, code, now, l);
    SpentForEver(DoCreate(t, email, code, now).0, qs, l.id, now, j);
  }

  lemma AskingSpends(t: Table, email: string, code: Option<string>, now: int, l: Link)
    requires Inv(t, now) && l in t.rows && l.email == email
    ensures Spent(DoCreate(t, email, code, now).0, l.id, now)
  {
    var u := DoCreate(t, email, code, now).0;
    var rows := Change(t.rows, Invalidate(email, now));
    UniqueRow(t, l, now);
    assert l.id < t.nextId;
    forall k | k in rows && k.id == l.id ensures !Live(k, now) {
      var i :| 0 <= i < |rows| && rows[i] == k;
      assert t.rows[i] in t.rows;
    }
  }

  // ----- what an accepted code is worth, and that a good code is accepted -----

  /** In a reachable table only a code issued in the last fifteen minutes is accepted. */
  lemma AcceptedIsFresh(t: Table, q: Request, now: int)
    requires Inv(t, now) && now <= q.now && Do(t, q).1.Accepted?
    ensures exists l :: l in t.rows && l.id == Do(t, q).1.id && l.email == q.email && l.token == q.code
              && l.createdAt <= q.now < l.createdAt + 900 && l.attempts < 5
  {
    var l := Latest(t.rows, q.email, q.now).value;
    var i :| 0 <= i < |t.rows| && t.rows[i] == l;
    assert l.expiresAt == l.createdAt + LIFETIME;
  }

  /** The code's row with some more wrong tries is in the table, and can still be tried. */
  ghost predicate Usable(t: Table, l: Link, tries: nat, now: int) {
    l.(attempts := l.attempts + tries) in t.rows && Live(l, now) && l.attempts + tries < MAX_ATTEMPTS
  }

  lemma PendingRow(t: Table, k: Link, now: int)
    requires Inv(t, now) && k in t.rows && Live(k, now)
    ensures Latest(t.rows, k.email, now) == Some(k)
  {
    var l := Latest(t.rows, k.email, now).value;
    var i :| 0 <= i < |t.rows| && t.rows[i] == k;
    var j :| 0 <= j < |t.rows| && t.rows[j] == l;
  }

  lemma KeptByChange(rows: seq<Link>, f: Link -> Link, k: Link)
    requires k in rows
    ensures f(k) in Change(rows, f)
  {
    var i :| 0 <= i < |rows| && rows[i] == k;
    assert Change(rows, f)[i] == f(k);
  }

  lemma ChangeKeepsUsable(t: Table, f: Link -> Link, l: Link, tries: nat, now: int)
    requires Usable(t, l, tries, now) && f(l.(attempts := l.attempts + tries)) == l.(attempts := l.attempts + tries)
    ensures Usable(Table(Change(t.rows, f), t.nextId), l, tries, now)
  {
    KeptByChange(t.rows, f, l.(attempts := l.attempts + tries));
  }

  lemma OneMoreKeepsUsable(t: Table, l: Link, tries: nat, now: int)
    requires Usable(t, l, tries, now) && l.attempts + tries + 1 < MAX_ATTEMPTS
    ensures Usable(Table(Change(t.rows, OneMore(l.id)), t.nextId), l, tries + 1, now)
  {
    KeptByChange(t.rows, OneMore(l.id), l.(attempts := l.attempts + tries));
  }

  lemma TryKeepsUsable(t: Table, email: string, code: string, now: int, markOk: bool, l: Link, tries: nat)
    requires Inv(t, now) && Usable(t, l, tries, now)
    ensures var (u, o) := DoValidate(t, email, code, now, markOk);
            var more := if o == WrongTry(l.id) then tries + 1 else tries;
            o == Accepted(l.id) || l.attempts + more >= MAX_ATTEMPTS || Usable(u, l, more, now)
  {
    var latest := Latest(t.rows, email, now);
    if latest.Some? {
      UniqueRow(t, latest.value, now);
      hide Inv, Latest, DoValidate;
      if latest.value.id == l.id {
        OwnTry(t, email, code, now, markOk, l, tries);
      } else {
        OtherTry(t, email, code, now, markOk, l, tries);
      }
    }
  }

  lemma OwnTry(t: Table, email: string, code: string, now: int, markOk: bool, l: Link, tries: nat)
    requires Usable(t, l, tries, now) && Latest(t.rows, email, now) == Some(l.(attempts := l.attempts + tries))
    ensures var (u, o) := DoValidate(t, email, code, now, markOk);
            var more := if o == WrongTry(l.id) then tries + 1 else tries;
            o == Accepted(l.id) || l.attempts + more >= MAX_ATTEMPTS || Usable(u, l, more, now)
  {
    hide Latest, Change, Usable, Live;
    UsableBound(t, l, tries, now);
    if l.attempts + tries + 1 < MAX_ATTEMPTS { OneMoreKeepsUsable(t, l, tries, now); }
  }

  lemma OtherTry(t: Table, email: string, code: string, now: int, markOk: bool, l: Link, tries: nat)
    requires Usable(t, l, tries, now)
    requires Latest(t.rows, email, now).Some? && Latest(t.rows, email, now).value.id != l.id
    ensures Usable(DoValidate(t, email, code, now, markOk).0, l, tries, now)
    ensures DoValidate(t, email, code, now, markOk).1 != WrongTry(l.id)
  {
    hide Latest, Change, Usable, Live;
    var d := Latest(t.rows, email, now).value;
    ChangeKeepsUsable(t, Used(d.id, now), l, tries, now);
    ChangeKeepsUsable(t, OneMore(d.id), l, tries, now);
    ChangeKeepsUsable(Table(Change(t.rows, OneMore(d.id)), t.nextId), Used(d.id, now), l, tries, now);
  }

  lemma UsableBound(t: Table, l: Link, tries: nat, now: int)
    requires Usable(t, l, tries, now)
    ensures l.attempts + tries < MAX_ATTEMPTS
  {
  }

  lemma StepKeepsUsable(t: Table, q: Request, l: Link, tries: nat, now: int)
    requires Inv(t, now) && Usable(t, l, tries, now) && now <= q.now < l.expiresAt
    requires q.Ask? ==> q.email != l.email
    ensures var (u, o) := Do(t, q);
            var more := if o == WrongTry(l.id) then tries + 1 else tries;
            o == Accepted(l.id) || l.attempts + more >= MAX_ATTEMPTS || Usable(u, l, more, q.now)
  {
    hide Inv, DoValidate;
    InvLater(t, now, q.now);
    var k := l.(attempts := l.attempts + tries);
    match q
    case Ask(email, code, at) => KeptByChange(t.rows, Invalidate(email, at), k);
    case Try(email, code, at, markOk) => TryKeepsUsable(t, email, code, at, markOk, l, tries);
    case Clean(at) => UnexpiredHas(t.rows, at);
  }

  lemma {:induction false} StaysUsable(t: Table, qs: seq<Request>, l: Link, tries: nat, now: int)
    requires Inv(t, now) && Usable(t, l, tries, now) && Monotone(qs, now)
    requires forall i :: 0 <= i < |qs| ==> qs[i].now < l.expiresAt && (qs[i].Ask? ==> qs[i].email != l.email)
    requires forall i :: 0 <= i < |qs| ==> Outcomes(t, qs)[i] != Accepted(l.id)
    requires l.attempts + tries + WrongTries(Outcomes(t, qs), l.id) < MAX_ATTEMPTS
    ensures var end := if qs == [] then now else qs[|qs| - 1].now;
            Inv(After(t, qs), end) && exists n: nat :: Usable(After(t, qs), l, n, end)
    decreases |qs|
  {
    hide Inv, Do, Usable;
    if qs == [] {
      assert Usable(After(t, qs), l, tries, now);
    } else {
      var q, rest := qs[0], qs[1..];
      var (u, o) := Do(t, q);
      assert Outcomes(t, qs)[0] == o;
      assert Outcomes(t, qs)[1..] == Outcomes(u, rest);
      StepKeepsInv(t, q, now);
      StepKeepsUsable(t, q, l, tries, now);
      assert Monotone(rest, q.now);
      forall i | 0 <= i < |rest| ensures Outcomes(u, rest)[i] != Accepted(l.id) {
        assert Outcomes(t, qs)[i + 1] != Accepted(l.id);
      }
      StaysUsable(u, rest, l, if o == WrongTry(l.id) then tries + 1 else tries, q.now);
    }
  }

  /** A request has the right code for the email, and the statement that marks it used succeeds. */
  predicate Redeems(q: Request, l: Link) {
    q.Try? && q.email == l.email && q.code == l.token && q.markOk
  }

  /** Only such a request accepts a code, and only a wrong code counts as a wrong try. */
  lemma OutcomeMeans(t: Table, q: Request, l: Link)
    requires KnownAs(t, l)
    ensures Do(t, q).1 == Accepted(l.id) ==> Redeems(q, l)
    ensures Do(t, q).1 == WrongTry(l.id) ==> Guess(t, q, l)
  {
    if q.Try? {
      var latest := Latest(t.rows, q.email, q.now);
      if latest.Some? && latest.value.id == l.id { KnownRow(t, l, latest.value); }
    }
  }

  lemma {:induction false} OutcomesMean(t: Table, qs: seq<Request>, l: Link)
    requires KnownAs(t, l) && forall i :: 0 <= i < |qs| ==> !Redeems(qs[i], l)
    ensures forall i :: 0 <= i < |qs| ==> Outcomes(t, qs)[i] != Accepted(l.id)
    ensures WrongTries(Outcomes(t, qs), l.id) <= Guesses(t, qs, l)
    decreases |qs|
  {
    hide Do, KnownAs, Guess, Redeems;
    if qs != [] {
      var u, o := Do(t, qs[0]).0, Do(t, qs[0]).1;
      OutcomeMeans(t, qs[0], l);
      StepKeepsKnown(t, qs[0], l);
      OutcomesMean(u, qs[1..], l);
      assert Outcomes(t, qs) == [o] + Outcomes(u, qs[1..]);
      assert ([o] + Outcomes(u, qs[1..]))[1..] == Outcomes(u, qs[1..]);
    }
  }

  /**
    A code works: in any run after it was issued in which it is not redeemed yet, no
    new code is asked for its email and fewer than five requests try another code for
    it, the right code is accepted for fifteen minutes.
  */
  lemma {:induction false} GoodCodeIsAccepted(t: Table, qs: seq<Request>, l: Link, now: int, at: int)
    requires Inv(t, now) && l in t.rows && l.usedAt.None? && l.email != "" && l.token != "" && l.attempts == 0
    requires Monotone(qs, now) && now <= at < l.createdAt + 900 && (qs != [] ==> qs[|qs| - 1].now <= at)
    requires forall i :: 0 <= i < |qs| ==> !(qs[i].Ask? && qs[i].email == l.email) && !Redeems(qs[i], l)
    requires Guesses(t, qs, l) < 5
    ensures Do(After(t, qs), Try(l.email, l.token, at, true)).1 == Accepted(l.id)
  {
    hide After, Outcomes, Do, WrongTries, Guesses, Redeems;
    RowKnown(t, l, now);
    RowExpires(t, l, now);
    OutcomesMean(t, qs, l);
    hide Inv;
    StaysUsable(t, qs, l, 0, now) by { assert l.(attempts := l.attempts + 0) == l; }
    var end := if qs == [] then now else qs[|qs| - 1].now;
    var n: nat :| Usable(After(t, qs), l, n, end);
    UsableIsAccepted(After(t, qs), l, n, end, at);
  }

  lemma RowExpires(t: Table, l: Link, now: int)
    requires Inv(t, now) && l in t.rows
    ensures l.expiresAt == l.createdAt + 900
  {
    var i :| 0 <= i < |t.rows| && t.rows[i] == l;
  }

  lemma UsableIsAccepted(t: Table, l: Link, n: nat, now: int, at: int)
    requires Inv(t, now) && Usable(t, l, n, now) && now <= at < l.expiresAt && l.email != "" && l.token != ""
    ensures Do(t, Try(l.email, l.token, at, true)).1 == Accepted(l.id)
  {
    hide Inv;
    InvLater(t, now, at);
    PendingRow(t, l.(attempts := l.attempts + n), at);
  }
}
