/** Rows of the key-value store, the RAM their payers are charged, and the limits
  * checked when a transaction ends. */
module KvRam {

  const TWO32: nat := 0x1_0000_0000
  const TWO64: nat := 0x1_0000_0000_0000_0000

  /** What a row costs besides its key and value: 24 bytes of fields, 12 for each
    * of the two blobs and 32 for each of the two indices. */
  const BILLABLE: nat := 112

  type Bytes = s: seq<nat> | |s| < TWO32

  datatype RowKey = RowKey(contract: nat, key: Bytes)
  datatype Row = Row(payer: nat, value: Bytes)

  datatype Error = NotPermitted | KeyTooLarge | ValueTooLarge | UnknownAccount | Overflow | Underflow | LimitExceeded
  datatype Result = Ok(delta: int) | Err(error: Error)

  // -------------------------------------------------------- what an account owes

  function Cost(k: RowKey, r: Row): nat {
    BILLABLE + |k.key| + |r.value|
  }

  function Share(k: RowKey, r: Row, account: nat): nat {
    if r.payer == account then Cost(k, r) else 0
  }

  /** The cost of all rows the account pays for. */
  ghost function Owed(rows: map<RowKey, Row>, account: nat): nat
    decreases |rows.Keys|
  {
    if rows.Keys == {} then 0
    else
      var k :| k in rows.Keys;
      Share(k, rows[k], account) + Owed(rows - {k}, account)
  }

  lemma {:induction false} OwedWithout(rows: map<RowKey, Row>, k: RowKey, account: nat)
    requires k in rows
    ensures Owed(rows, account) == Share(k, rows[k], account) + Owed(rows - {k}, account)
    decreases |rows.Keys|
  {
    var j :| j in rows.Keys && Owed(rows, account) == Share(j, rows[j], account) + Owed(rows - {j}, account);
    if j != k {
      OwedWithout(rows - {j}, k, account);
      OwedWithout(rows - {k}, j, account);
      assert rows - {j} - {k} == rows - {k} - {j};
    }
  }

  lemma OwedSet(rows: map<RowKey, Row>, k: RowKey, r: Row, account: nat)
    ensures Owed(rows[k := r], account) ==
            Owed(rows, account) + Share(k, r, account) - if k in rows then Share(k, rows[k], account) else 0
  {
    OwedWithout(rows[k := r], k, account);
    if k in rows {
      OwedWithout(rows, k, account);
      assert rows[k := r] - {k} == rows - {k};
    } else {
      assert rows[k := r] - {k} == rows;
    }
  }

  // ------------------------------------------------------------ the charges made

  /** Key and value size added in 32 bits, as an update does. */
  function Size32(keySize: nat, valueSize: nat): nat {
    (keySize + valueSize) % TWO32
  }

  /** The cost as an update computes it. */
  function Cost32(k: RowKey, r: Row): nat {
    BILLABLE + Size32(|k.key|, |r.value|)
  }

  predicate Fits(k: RowKey, r: Row) {
    |k.key| + |r.value| < TWO32
  }

  lemma CostsAgree(k: RowKey, r: Row)
    ensures Cost32(k, r) == if Fits(k, r) then Cost(k, r) else Cost(k, r) - TWO32
  {
  }

  datatype Option<T> = None | Some(value: T)

  /** One change of one account's usage; a change by nothing asks for no account. */
  function Adjust(usage: map<nat, nat>, account: nat, delta: int): Option<map<nat, nat>> {
    if delta == 0 then Some(usage)
    else if account in usage && 0 <= usage[account] + delta && (delta < 0 || usage[account] + delta < TWO64)
    then Some(usage[account := usage[account] + delta])
    else None
  }

  /** An update: the old payer is refunded and the new one charged in full, or one payer
    * is charged the difference. */
  function UpdateUsage(usage: map<nat, nat>, k: RowKey, before: Row, after: Row): Option<map<nat, nat>> {
    if before.payer == after.payer then Adjust(usage, after.payer, Cost32(k, after) - Cost32(k, before))
    else
      match Adjust(usage, before.payer, 0 - Cost32(k, before))
      case None => None
      case Some(refunded) => Adjust(refunded, after.payer, Cost32(k, after))
  }

  datatype Limits = Limits(maxKeySize: nat, maxValueSize: nat)

  // ---------------------------------------------------------- what a transaction does

  datatype Op =
    | Set(receiver: nat, k: RowKey, value: Bytes, payer: nat)
    | Erase(receiver: nat, k: RowKey)
    | Limit(account: nat, bytes: int)

  /** Rows, usage, limits, and the accounts whose limit is to be checked. */
  datatype World = World(rows: map<RowKey, Row>, usage: map<nat, nat>, ramLimit: map<nat, int>, marks: set<nat>)

  function RowsAfter(rows: map<RowKey, Row>, op: Op): map<RowKey, Row> {
    match op
    case Set(_, k, value, payer) => rows[k := Row(payer, value)]
    case Erase(_, k) => rows - {k}
    case Limit(_, _) => rows
  }

  function LimitsAfter(ramLimit: map<nat, int>, op: Op): map<nat, int> {
    match op
    case Limit(account, bytes) => ramLimit[account := bytes]
    case _ => ramLimit
  }

  /** What the contract and the sizes have to be. */
  predicate Permitted(limits: Limits, op: Op) {
    match op
    case Set(receiver, k, value, _) => k.contract == receiver && |k.key| <= limits.maxKeySize && |value| <= limits.maxValueSize
    case Erase(receiver, k) => k.contract == receiver
    case Limit(_, bytes) => bytes >= -1
  }

  function UsageAfter(rows: map<RowKey, Row>, usage: map<nat, nat>, op: Op): Option<map<nat, nat>> {
    match op
    case Set(_, k, value, payer) =>
      if k in rows then UpdateUsage(usage, k, rows[k], Row(payer, value)) else Adjust(usage, payer, Cost(k, Row(payer, value)))
    case Erase(_, k) => if k in rows then Adjust(usage, rows[k].payer, 0 - Cost(k, rows[k])) else Some(usage)
    case Limit(account, _) => if account in usage then Some(usage) else None
  }

  /** A negative limit is no limit. */
  predicate Within(used: nat, limit: int) {
    limit >= 0 ==> used <= limit
  }

  predicate Lowers(before: int, after: int) {
    after >= 0 && (before < 0 || after < before)
  }

  /** Whose usage an operation raises or whose limit it lowers. */
  function Marks(rows: map<RowKey, Row>, ramLimit: map<nat, int>, op: Op): set<nat> {
    match op
    case Set(_, k, value, payer) =>
      if k in rows && rows[k].payer == payer && Cost32(k, Row(payer, value)) <= Cost32(k, rows[k]) then {} else {payer}
    case Erase(_, _) => {}
    case Limit(account, bytes) => if account in ramLimit && Lowers(ramLimit[account], bytes) then {account} else {}
  }

  function Step(limits: Limits, w: World, op: Op): Option<World> {
    var u := UsageAfter(w.rows, w.usage, op);
    if Permitted(limits, op) && u.Some?
    then Some(World(RowsAfter(w.rows, op), u.value, LimitsAfter(w.ramLimit, op), w.marks + Marks(w.rows, w.ramLimit, op)))
    else None
  }

  function Steps(limits: Limits, w: World, ops: seq<Op>): Option<World>
    decreases |ops|
  {
    if ops == [] then Some(w)
    else
      match Step(limits, w, ops[0])
      case None => None
      case Some(v) => Steps(limits, v, ops[1..])
  }

  /** The test at the end. */
  predicate Closes(w: World) {
    forall a :: a in w.marks && a in w.usage && a in w.ramLimit ==> Within(w.usage[a], w.ramLimit[a])
  }

  /** A transaction takes effect exactly when every operation succeeds in its turn and
    * the marked accounts are within their limits after the last. */
  predicate Commits(limits: Limits, w: World, ops: seq<Op>) {
    Steps(limits, w, ops).Some? && Closes(Steps(limits, w, ops).value)
  }

  // ------------------------------------------------------------------- the database

  class KvDatabase {
    const limits: Limits
    var rows: map<RowKey, Row>
    var usage: map<nat, nat>
    var ramLimit: map<nat, int>
    var toVerify: set<nat>
    var savedRows: map<RowKey, Row>
    var savedUsage: map<nat, nat>
    var savedRamLimit: map<nat, int>

    /** Every account has a usage and a limit. */
    ghost predicate Valid()
      reads this
    {
      usage.Keys == ramLimit.Keys == savedUsage.Keys == savedRamLimit.Keys
    }

    ghost function Now(): World
      reads this
    {
      World(rows, usage, ramLimit, toVerify)
    }

    constructor (limits: Limits, usage: map<nat, nat>, ramLimit: map<nat, int>)
      requires ramLimit.Keys == usage.Keys
      ensures Valid() && Now() == World(map[], usage, ramLimit, {}) && this.limits == limits
    {
      this.limits := limits;
      rows, savedRows := map[], map[];
      this.usage, savedUsage := usage, usage;
      this.ramLimit, savedRamLimit := ramLimit, ramLimit;
      toVerify := {};
    }

    /** One change of one account's usage. */
    method AddRamUsage(account: nat, delta: int) returns (r: Result)
      modifies this`usage, this`toVerify
      ensures var u := Adjust(old(usage), account, delta);
              if u.Some? then r == Ok(delta) && usage == u.value && toVerify == old(toVerify) + (if delta > 0 then {account} else {})
              else r.Err? && usage == old(usage) && toVerify == old(toVerify)
      ensures r.Err? ==>
                if account !in usage then r.error == UnknownAccount
                else if delta > 0 then r.error == Overflow && usage[account] + delta > 0xFFFF_FFFF_FFFF_FFFF
                else r.error == Underflow && usage[account] + delta < 0
    {
      if delta == 0 {
        return Ok(0);
      }
      if account !in usage {
        return Err(UnknownAccount);
      }
      if delta > 0 && usage[account] + delta >= TWO64 {
        return Err(Overflow);
      }
      if delta < 0 && usage[account] < -delta {
        return Err(Underflow);
      }
      usage := usage[account := usage[account] + delta];
      if delta > 0 {
        toVerify := toVerify + {account};
      }
      r := Ok(delta);
    }

    /** Charges for an update. After an error the transaction has failed. */
    method UpdateTableUsage(k: RowKey, before: Row, after: Row) returns (r: Result)
      modifies this`usage, this`toVerify
      ensures var u := UpdateUsage(old(usage), k, before, after);
              && (r.Ok? <==> u.Some?)
              && (r.Ok? ==>
                    && r.delta == Cost32(k, after) - Cost32(k, before) && usage == u.value
                    && toVerify == old(toVerify) +
                       (if before.payer == after.payer && Cost32(k, after) <= Cost32(k, before) then {} else {after.payer}))
      ensures usage.Keys == old(usage).Keys && (r.Err? ==> r.error in {UnknownAccount, Overflow, Underflow})
    {
      var oldSize, newSize := Size32(|k.key|, |before.value|), Size32(|k.key|, |after.value|);
      var delta := newSize - oldSize;
      if before.payer != after.payer {
        r := AddRamUsage(before.payer, -(oldSize + BILLABLE));
        if r.Err? {
          return;
        }
        r := AddRamUsage(after.payer, newSize + BILLABLE);
        if r.Err? {
          return;
        }
      } else if oldSize != newSize {
        r := AddRamUsage(after.payer, delta);
        if r.Err? {
          return;
        }
      }
      r := Ok(delta);
    }

    /** Creates or overwrites a row. */
    method KvSet(receiver: nat, k: RowKey, value: Bytes, payer: nat) returns (r: Result)
      requires Valid()
      modifies this`rows, this`usage, this`toVerify
      ensures Valid() && (r.Ok? <==> Step(limits, old(Now()), Set(receiver, k, value, payer)).Some?)
      ensures r.Ok? ==> Now() == Step(limits, old(Now()), Set(receiver, k, value, payer)).value
      ensures r.Ok? ==> rows.Keys == old(rows).Keys + {k} && rows[k].payer == payer && rows[k].value == value
      ensures r.Ok? ==> forall x :: x in old(rows) && x != k ==> rows[x] == old(rows)[x]
      ensures r.Err? ==> rows == old(rows)
      ensures r.Ok? ==> r.delta == if k in old(rows) then (|k.key| + |value|) % 0x1_0000_0000 - (|k.key| + |old(rows)[k].value|) % 0x1_0000_0000
                                   else 112 + |k.key| + |value|
      ensures r.Ok? ==> toVerify == old(toVerify) + set a | a in usage && usage[a] > old(usage)[a]
      ensures r == Err(NotPermitted) <==> k.contract != receiver
      ensures r == Err(KeyTooLarge) <==> k.contract == receiver && |k.key| > limits.maxKeySize
      ensures r == Err(ValueTooLarge) <==> k.contract == receiver && |k.key| <= limits.maxKeySize && |value| > limits.maxValueSize
    {
      if k.contract != receiver {
        return Err(NotPermitted);
      }
      if |k.key| > limits.maxKeySize {
        return Err(KeyTooLarge);
      }
      if |value| > limits.maxValueSize {
        return Err(ValueTooLarge);
      }
      var row := Row(payer, value);
      if k in rows {
        r := UpdateTableUsage(k, rows[k], row);
      } else {
        r := AddRamUsage(payer, Cost(k, row));
      }
      if r.Ok? {
        rows := rows[k := row];
      }
    }

    /** Removes a row if it is there and refunds its payer. */
    method KvErase(receiver: nat, k: RowKey) returns (r: Result)
      requires Valid()
      modifies this`rows, this`usage, this`toVerify
      ensures Valid() && (r.Ok? <==> Step(limits, old(Now()), Erase(receiver, k)).Some?)
      ensures r.Ok? ==> Now() == Step(limits, old(Now()), Erase(receiver, k)).value
      ensures r.Ok? ==> rows.Keys == old(rows).Keys - {k} && forall x :: x in rows ==> rows[x] == old(rows)[x]
      ensures r.Err? ==> rows == old(rows)
      ensures r.Ok? ==> r.delta == if k in old(rows) then 0 - (112 + |k.key| + |old(rows)[k].value|) else 0
      ensures toVerify == old(toVerify) && (r == Err(NotPermitted) <==> k.contract != receiver)
    {
      if k.contract != receiver {
        return Err(NotPermitted);
      }
      if k !in rows {
        assert rows - {k} == rows;
        return Ok(0);
      }
      r := AddRamUsage(rows[k].payer, 0 - Cost(k, rows[k]));
      if r.Ok? {
        rows := rows - {k};
      }
    }

    /** A lower limit is checked against at the end. */
    method SetRamLimit(account: nat, bytes: int) returns (ok: bool)
      requires Valid()
      modifies this`ramLimit, this`toVerify
      ensures Valid() && (ok <==> Step(limits, old(Now()), Limit(account, bytes)).Some?)
      ensures ok ==> Now() == Step(limits, old(Now()), Limit(account, bytes)).value
      ensures ok <==> bytes >= -1 && account in usage
      ensures ok ==> ramLimit == old(ramLimit)[account := bytes]
      ensures ok ==> (account in toVerify <==> account in old(toVerify) || (bytes >= 0 && (old(ramLimit)[account] < 0 || bytes < old(ramLimit)[account])))
      ensures forall a :: a != account ==> (a in toVerify <==> a in old(toVerify))
    {
      ok := bytes >= -1 && account in usage;
      if ok {
        var decreased := bytes >= 0 && (ramLimit[account] < 0 || bytes < ramLimit[account]);
        ramLimit := ramLimit[account := bytes];
        if decreased {
          toVerify := toVerify + {account};
        }
      }
    }

    method BeginTransaction()
      requires Valid()
      modifies this`savedRows, this`savedUsage, this`savedRamLimit, this`toVerify
      ensures Valid() && Now() == old(Now()).(marks := {})
      ensures savedRows == rows && savedUsage == usage && savedRamLimit == ramLimit
    {
      savedRows, savedUsage, savedRamLimit := rows, usage, ramLimit;
      toVerify := {};
    }

    /** Limits are checked once, at the end, for the marked accounts. */
    method Finalize() returns (ok: bool)
      requires Valid()
      ensures ok <==> Closes(Now())
      ensures ok <==> forall a :: a in toVerify && a in usage ==> ramLimit[a] < 0 || usage[a] <= ramLimit[a]
    {
      var rest := toVerify * usage.Keys;
      ok := true;
      while rest != {}
        invariant rest <= toVerify * usage.Keys && ok
        invariant forall a :: a in toVerify && a in usage && a !in rest ==> Within(usage[a], ramLimit[a])
        decreases rest
      {
        var a :| a in rest;
        if !Within(usage[a], ramLimit[a]) {
          return false;
        }
        rest := rest - {a};
      }
    }

    /** A failed transaction leaves no trace. */
    method Rollback()
      requires Valid()
      modifies this`rows, this`usage, this`ramLimit, this`toVerify
      ensures Valid() && Now() == World(savedRows, savedUsage, savedRamLimit, {})
    {
      rows, usage, ramLimit := savedRows, savedUsage, savedRamLimit;
      toVerify := {};
    }

    method Apply(op: Op) returns (ok: bool)
      requires Valid()
      modifies this`rows, this`usage, this`toVerify, this`ramLimit
      ensures Valid() && (ok <==> Step(limits, old(Now()), op).Some?)
      ensures ok ==> Now() == Step(limits, old(Now()), op).value
    {
      match op {
        case Set(receiver, k, value, payer) =>
          var r := KvSet(receiver, k, value, payer);
          ok := r.Ok?;
        case Erase(receiver, k) =>
          var r := KvErase(receiver, k);
          ok := r.Ok?;
        case Limit(account, bytes) =>
          ok := SetRamLimit(account, bytes);
      }
    }

    /** A whole transaction: all of it takes effect, or none. */
    method RunTransaction(ops: seq<Op>) returns (ok: bool)
      requires Valid()
      modifies this
      ensures Valid() && (ok <==> Commits(limits, old(Now()).(marks := {}), ops))
      ensures ok ==> Now() == Steps(limits, old(Now()).(marks := {}), ops).value
      ensures !ok ==> Now() == old(Now()).(marks := {})
      ensures ok ==> LastWrites(ops, old(rows), rows) && LastLimits(ops, old(ramLimit), ramLimit)
    {
      ghost var start := Now().(marks := {});
      BeginTransaction();
      var i := 0;
      assert ops[0..] == ops;
      while i < |ops|
        invariant 0 <= i <= |ops| && Valid()
        invariant World(savedRows, savedUsage, savedRamLimit, {}) == start
        invariant Steps(limits, Now(), ops[i..]) == Steps(limits, start, ops)
      {
        assert ops[i..][0] == ops[i] && ops[i..][1..] == ops[i + 1..];
        var done := Apply(ops[i]);
        if !done {
          Rollback();
          return false;
        }
        i := i + 1;
      }
      ok := Finalize();
      if ok {
        StepsWrite(limits, start, ops);
      } else {
        Rollback();
      }
    }
  }

  // -------------------------------------------------------------- what the rows hold

  /** Operation i is the last of them on row k. */
  predicate LastOn(ops: seq<Op>, k: RowKey, i: int) {
    0 <= i < |ops| && OnRow(ops[i], k) && forall j :: i < j < |ops| ==> !OnRow(ops[j], k)
  }

  predicate OnRow(op: Op, k: RowKey) {
    !op.Limit? && op.k == k
  }

  /** Each row is what the last operation on it has written, or gone if that erased it;
    * without any it is what it was. */
  ghost predicate LastWrites(ops: seq<Op>, before: map<RowKey, Row>, rows: map<RowKey, Row>) {
    && (forall k, i :: LastOn(ops, k, i) ==>
          if ops[i].Set? then k in rows && rows[k].payer == ops[i].payer && rows[k].value == ops[i].value else k !in rows)
    && (forall k :: (forall i :: 0 <= i < |ops| ==> !OnRow(ops[i], k)) ==> (k in rows <==> k in before) && (k in rows ==> rows[k] == before[k]))
  }

  predicate LastFor(ops: seq<Op>, a: nat, i: int) {
    0 <= i < |ops| && ForAccount(ops[i], a) && forall j :: i < j < |ops| ==> !ForAccount(ops[j], a)
  }

  predicate ForAccount(op: Op, a: nat) {
    op.Limit? && op.account == a
  }

  /** The same of the limits. */
  ghost predicate LastLimits(ops: seq<Op>, before: map<nat, int>, after: map<nat, int>) {
    && (forall a, i :: LastFor(ops, a, i) ==> a in after && after[a] == ops[i].bytes)
    && (forall a :: (forall i :: 0 <= i < |ops| ==> !ForAccount(ops[i], a)) ==> (a in after <==> a in before) && (a in after ==> after[a] == before[a]))
  }

  lemma {:induction false} StepsWrite(limits: Limits, w: World, ops: seq<Op>)
    requires Steps(limits, w, ops).Some?
    ensures LastWrites(ops, w.rows, Steps(limits, w, ops).value.rows)
    ensures LastLimits(ops, w.ramLimit, Steps(limits, w, ops).value.ramLimit)
    decreases |ops|
  {
    if ops != [] {
      var v, u := Step(limits, w, ops[0]).value, Steps(limits, w, ops).value;
      StepsWrite(limits, v, ops[1..]);
      FirstWrite(ops, w.rows, v.rows, u.rows);
      FirstLimit(ops, w.ramLimit, v.ramLimit, u.ramLimit);
    }
  }

  lemma FirstWrite(ops: seq<Op>, before: map<RowKey, Row>, next: map<RowKey, Row>, rows: map<RowKey, Row>)
    requires ops != [] && next == RowsAfter(before, ops[0]) && LastWrites(ops[1..], next, rows)
    ensures LastWrites(ops, before, rows)
  {
    forall k, i | LastOn(ops, k, i)
      ensures if ops[i].Set? then k in rows && rows[k].payer == ops[i].payer && rows[k].value == ops[i].value else k !in rows
    {
      assert forall j :: 0 <= j < |ops| - 1 ==> ops[1..][j] == ops[j + 1];
      if i > 0 {
        assert LastOn(ops[1..], k, i - 1);
      }
    }
    forall k | forall i :: 0 <= i < |ops| ==> !OnRow(ops[i], k) ensures (k in rows <==> k in before) && (k in rows ==> rows[k] == before[k]) {
      assert !OnRow(ops[0], k);
      assert forall j :: 0 <= j < |ops| - 1 ==> ops[1..][j] == ops[j + 1];
    }
  }

  lemma FirstLimit(ops: seq<Op>, before: map<nat, int>, next: map<nat, int>, after: map<nat, int>)
    requires ops != [] && next == LimitsAfter(before, ops[0]) && LastLimits(ops[1..], next, after)
    ensures LastLimits(ops, before, after)
  {
    forall a, i | LastFor(ops, a, i) ensures a in after && after[a] == ops[i].bytes {
      assert forall j :: 0 <= j < |ops| - 1 ==> ops[1..][j] == ops[j + 1];
      if i > 0 {
        assert LastFor(ops[1..], a, i - 1);
      }
    }
    forall a | forall i :: 0 <= i < |ops| ==> !ForAccount(ops[i], a) ensures (a in after <==> a in before) && (a in after ==> after[a] == before[a]) {
      assert !ForAccount(ops[0], a);
      assert forall j :: 0 <= j < |ops| - 1 ==> ops[1..][j] == ops[j + 1];
    }
  }

  // ------------------------------------------------------------------------ the books

  /** Every account's usage is what it uses elsewhere and the cost of the rows it pays for. */
  ghost predicate Books(other: map<nat, nat>, rows: map<RowKey, Row>, usage: map<nat, nat>) {
    && usage.Keys == other.Keys
    && (forall a :: a in other ==> usage[a] == other[a] + Owed(rows, a) < TWO64)
    && (forall k :: k in rows ==> rows[k].payer in other)
  }

  /** An update whose 32-bit sizes are right, or wrong by as much on both sides. */
  predicate Exact(rows: map<RowKey, Row>, op: Op) {
    op.Set? && op.k in rows ==>
      var before, after := rows[op.k], Row(op.payer, op.value);
      if before.payer == after.payer then Fits(op.k, before) == Fits(op.k, after) else Fits(op.k, before) && Fits(op.k, after)
  }

  /** What an operation takes besides permission: a payer on chain whose usage will fit
    * 64 bits. Nothing is asked of a refund. */
  ghost predicate Affordable(other: map<nat, nat>, rows: map<RowKey, Row>, op: Op) {
    match op
    case Set(_, k, value, payer) => payer in other && other[payer] + Owed(rows[k := Row(payer, value)], payer) < TWO64
    case Erase(_, _) => true
    case Limit(account, _) => account in other
  }

  lemma OwesShare(rows: map<RowKey, Row>, k: RowKey, account: nat)
    requires k in rows
    ensures Owed(rows, account) >= Share(k, rows[k], account)
  {
    OwedWithout(rows, k, account);
  }

  lemma OwedAfterSet(rows: map<RowKey, Row>, k: RowKey, row: Row)
    ensures forall a :: Owed(rows[k := row], a) ==
              Owed(rows, a) + Share(k, row, a) - if k in rows then Share(k, rows[k], a) else 0
  {
    forall a ensures Owed(rows[k := row], a) == Owed(rows, a) + Share(k, row, a) - if k in rows then Share(k, rows[k], a) else 0 {
      OwedSet(rows, k, row, a);
    }
  }

  /** Creating a row: the payer alone is charged its cost. */
  lemma CreateBooks(other: map<nat, nat>, rows: map<RowKey, Row>, usage: map<nat, nat>, k: RowKey, row: Row)
    requires Books(other, rows, usage) && k !in rows
    ensures Adjust(usage, row.payer, Cost(k, row)).Some? <==> row.payer in other && other[row.payer] + Owed(rows[k := row], row.payer) < TWO64
    ensures Adjust(usage, row.payer, Cost(k, row)).Some? ==> Books(other, rows[k := row], Adjust(usage, row.payer, Cost(k, row)).value)
  {
    OwedAfterSet(rows, k, row);
  }

  /** Erasing a row never fails for lack of usage to refund. */
  lemma EraseBooks(other: map<nat, nat>, rows: map<RowKey, Row>, usage: map<nat, nat>, k: RowKey)
    requires Books(other, rows, usage) && k in rows
    ensures Adjust(usage, rows[k].payer, 0 - Cost(k, rows[k])).Some?
    ensures Books(other, rows - {k}, Adjust(usage, rows[k].payer, 0 - Cost(k, rows[k])).value)
  {
    forall a ensures Owed(rows, a) == Share(k, rows[k], a) + Owed(rows - {k}, a) {
      OwedWithout(rows, k, a);
    }
  }

  /** What each account owes, by name. */
  ghost function Debts(other: map<nat, nat>, rows: map<RowKey, Row>): map<nat, nat> {
    map a | a in other :: Owed(rows, a)
  }

  predicate Balanced(other: map<nat, nat>, debts: map<nat, nat>, usage: map<nat, nat>) {
    usage.Keys == other.Keys == debts.Keys && forall a :: a in other ==> usage[a] == other[a] + debts[a] < TWO64
  }

  lemma BooksBalance(other: map<nat, nat>, rows: map<RowKey, Row>, usage: map<nat, nat>)
    ensures Books(other, rows, usage) <==>
            Balanced(other, Debts(other, rows), usage) && forall k :: k in rows ==> rows[k].payer in other
  {
  }

  lemma DebtsAfterSet(other: map<nat, nat>, rows: map<RowKey, Row>, k: RowKey, row: Row)
    requires k in rows && rows[k].payer in other
    ensures var d, p, q := Debts(other, rows), rows[k].payer, row.payer;
            && d[p] >= Cost(k, rows[k])
            && Debts(other, rows[k := row]) ==
               map a | a in other :: d[a] - (if a == p then Cost(k, rows[k]) else 0) + (if a == q then Cost(k, row) else 0)
  {
    OwesShare(rows, k, rows[k].payer);
    OwedAfterSet(rows, k, row);
  }

  /** Updating a row keeps the books exactly when its sizes are exact. */
  lemma UpdateBooks(other: map<nat, nat>, rows: map<RowKey, Row>, usage: map<nat, nat>, k: RowKey, row: Row, exact: bool)
    requires Books(other, rows, usage) && k in rows
    requires exact == if rows[k].payer == row.payer then Fits(k, rows[k]) == Fits(k, row) else Fits(k, rows[k]) && Fits(k, row)
    ensures exact ==>
              (UpdateUsage(usage, k, rows[k], row).Some? <==> row.payer in other && other[row.payer] + Owed(rows[k := row], row.payer) < TWO64)
    ensures UpdateUsage(usage, k, rows[k], row).Some? ==>
              (Books(other, rows[k := row], UpdateUsage(usage, k, rows[k], row).value) <==> exact)
  {
    BooksBalance(other, rows, usage);
    DebtsAfterSet(other, rows, k, row);
    UpdateDebts(other, Debts(other, rows), Debts(other, rows[k := row]), usage, k, rows[k], row, exact);
    if UpdateUsage(usage, k, rows[k], row).Some? {
      BooksBalance(other, rows[k := row], UpdateUsage(usage, k, rows[k], row).value);
    }
  }

  lemma UpdateDebts(other: map<nat, nat>, d: map<nat, nat>, next: map<nat, nat>, usage: map<nat, nat>, k: RowKey, before: Row, row: Row, exact: bool)
    requires Balanced(other, d, usage) && before.payer in other && d[before.payer] >= Cost(k, before)
    requires next == map a | a in other :: d[a] - (if a == before.payer then Cost(k, before) else 0) + (if a == row.payer then Cost(k, row) else 0)
    requires exact == if before.payer == row.payer then Fits(k, before) == Fits(k, row) else Fits(k, before) && Fits(k, row)
    ensures exact ==> (UpdateUsage(usage, k, before, row).Some? <==> row.payer in other && other[row.payer] + next[row.payer] < TWO64)
    ensures UpdateUsage(usage, k, before, row).Some? ==>
              row.payer in other && (Balanced(other, next, UpdateUsage(usage, k, before, row).value) <==> exact)
  {
    CostsAgree(k, before);
    CostsAgree(k, row);
    if before.payer == row.payer {
      SamePayer(other, d, next, usage, row.payer, Cost32(k, before), Cost32(k, row), Cost(k, before), Cost(k, row));
    } else {
      NewPayer(other, d, next, usage, before.payer, row.payer, Cost32(k, before), Cost32(k, row), Cost(k, before), Cost(k, row));
    }
  }

  lemma SamePayer(other: map<nat, nat>, debts: map<nat, nat>, next: map<nat, nat>, usage: map<nat, nat>, payer: nat,
                  charged: nat, charge: nat, owed: nat, owes: nat)
    requires Balanced(other, debts, usage) && payer in other && charged <= owed <= debts[payer]
    requires next == debts[payer := debts[payer] - owed + owes]
    ensures var u := Adjust(usage, payer, charge - charged);
            && (charge - charged == owes - owed ==> (u.Some? <==> other[payer] + next[payer] < TWO64))
            && (u.Some? ==> (Balanced(other, next, u.value) <==> charge - charged == owes - owed))
  {
  }

  lemma NewPayer(other: map<nat, nat>, debts: map<nat, nat>, next: map<nat, nat>, usage: map<nat, nat>, payer: nat, newPayer: nat,
                 charged: nat, charge: nat, owed: nat, owes: nat)
    requires Balanced(other, debts, usage) && payer in other && payer != newPayer && 0 < charged <= owed <= debts[payer] && 0 < charge
    requires next == if newPayer in other then debts[payer := debts[payer] - owed][newPayer := debts[newPayer] + owes] else debts[payer := debts[payer] - owed]
    ensures var u := Adjust(usage, payer, 0 - charged);
            && u.Some?
            && var v := Adjust(u.value, newPayer, charge);
               && (charge == owes ==> (v.Some? <==> newPayer in other && other[newPayer] + next[newPayer] < TWO64))
               && (v.Some? ==> (Balanced(other, next, v.value) <==> charged == owed && charge == owes))
  {
    var u := Adjust(usage, payer, 0 - charged).value;
    var v := Adjust(u, newPayer, charge);
    if v.Some? && Balanced(other, next, v.value) {
      assert v.value[payer] == other[payer] + next[payer];
      assert v.value[newPayer] == other[newPayer] + next[newPayer];
    }
  }

  /** From balanced books an operation succeeds exactly when it is permitted and can be
    * afforded, and leaves the books balanced; or its sizes are not exact, and then the
    * books are out of balance after it. */
  lemma StepBooks(limits: Limits, other: map<nat, nat>, w: World, op: Op)
    requires Books(other, w.rows, w.usage)
    ensures Exact(w.rows, op) ==> (Step(limits, w, op).Some? <==> Permitted(limits, op) && Affordable(other, w.rows, op))
    ensures Step(limits, w, op).Some? ==>
              (Books(other, Step(limits, w, op).value.rows, Step(limits, w, op).value.usage) <==> Exact(w.rows, op))
  {
    match op {
      case Set(_, k, value, payer) =>
        if k in w.rows {
          UpdateBooks(other, w.rows, w.usage, k, Row(payer, value), Exact(w.rows, op));
        } else {
          CreateBooks(other, w.rows, w.usage, k, Row(payer, value));
        }
      case Erase(_, k) =>
        if k in w.rows {
          EraseBooks(other, w.rows, w.usage, k);
        } else {
          assert w.rows - {k} == w.rows;
        }
      case Limit(_, _) =>
    }
  }

  function RowsAfterAll(rows: map<RowKey, Row>, ops: seq<Op>): map<RowKey, Row>
    decreases |ops|
  {
    if ops == [] then rows else RowsAfterAll(RowsAfter(rows, ops[0]), ops[1..])
  }

  function LimitsAfterAll(ramLimit: map<nat, int>, ops: seq<Op>): map<nat, int>
    decreases |ops|
  {
    if ops == [] then ramLimit else LimitsAfterAll(LimitsAfter(ramLimit, ops[0]), ops[1..])
  }

  /** The accounts whose usage some operation raises or whose limit it lowers. */
  function MarksOfAll(rows: map<RowKey, Row>, ramLimit: map<nat, int>, ops: seq<Op>): set<nat>
    decreases |ops|
  {
    if ops == [] then {} else Marks(rows, ramLimit, ops[0]) + MarksOfAll(RowsAfter(rows, ops[0]), LimitsAfter(ramLimit, ops[0]), ops[1..])
  }

  predicate AllExact(rows: map<RowKey, Row>, ops: seq<Op>)
    decreases |ops|
  {
    ops == [] || (Exact(rows, ops[0]) && AllExact(RowsAfter(rows, ops[0]), ops[1..]))
  }

  /** Every operation is admissible in its turn. */
  ghost predicate AllAdmissible(limits: Limits, other: map<nat, nat>, rows: map<RowKey, Row>, ops: seq<Op>)
    decreases |ops|
  {
    ops == [] ||
    (Permitted(limits, ops[0]) && Affordable(other, rows, ops[0]) && AllAdmissible(limits, other, RowsAfter(rows, ops[0]), ops[1..]))
  }

  lemma {:induction false} StepsBooks(limits: Limits, other: map<nat, nat>, w: World, ops: seq<Op>)
    requires Books(other, w.rows, w.usage) && AllExact(w.rows, ops)
    ensures Steps(limits, w, ops).Some? <==> AllAdmissible(limits, other, w.rows, ops)
    ensures Steps(limits, w, ops).Some? ==>
              var v := Steps(limits, w, ops).value;
              && Books(other, v.rows, v.usage) && v.rows == RowsAfterAll(w.rows, ops)
              && v.ramLimit == LimitsAfterAll(w.ramLimit, ops) && v.marks == w.marks + MarksOfAll(w.rows, w.ramLimit, ops)
    decreases |ops|
  {
    if ops != [] {
      StepBooks(limits, other, w, ops[0]);
      if Step(limits, w, ops[0]).Some? {
        StepsBooks(limits, other, Step(limits, w, ops[0]).value, ops[1..]);
      }
    }
  }

  /** The accounts are within limits, counted from the rows they pay for. */
  ghost predicate Funded(other: map<nat, nat>, rows: map<RowKey, Row>, ramLimit: map<nat, int>, accounts: set<nat>) {
    forall a :: a in accounts && a in other && a in ramLimit ==> Within(other[a] + Owed(rows, a), ramLimit[a])
  }

  lemma ClosesIff(other: map<nat, nat>, v: World)
    requires Books(other, v.rows, v.usage)
    ensures Closes(v) <==> Funded(other, v.rows, v.ramLimit, v.marks)
  {
  }

  /** From balanced books a transaction with exact sizes takes effect exactly when every
    * operation is admissible in its turn and, after the last one, the accounts whose
    * usage was raised or whose limit was lowered are within the limits of that moment. */
  lemma CommitsIff(limits: Limits, other: map<nat, nat>, w: World, ops: seq<Op>)
    requires Books(other, w.rows, w.usage) && AllExact(w.rows, ops) && w.marks == {}
    ensures Commits(limits, w, ops) <==>
              (AllAdmissible(limits, other, w.rows, ops) &&
               Funded(other, RowsAfterAll(w.rows, ops), LimitsAfterAll(w.ramLimit, ops), MarksOfAll(w.rows, w.ramLimit, ops)))
    ensures Commits(limits, w, ops) ==> Books(other, RowsAfterAll(w.rows, ops), Steps(limits, w, ops).value.usage)
  {
    StepsBooks(limits, other, w, ops);
    if Steps(limits, w, ops).Some? {
      ClosesIff(other, Steps(limits, w, ops).value);
      assert {} + MarksOfAll(w.rows, w.ramLimit, ops) == MarksOfAll(w.rows, w.ramLimit, ops);
    }
  }

  /** Limits bind at the end only: while the operations run they do not matter. */
  lemma {:induction false} LimitsBindAtTheEnd(limits: Limits, w: World, ramLimit: map<nat, int>, ops: seq<Op>)
    ensures var v, u := Steps(limits, w, ops), Steps(limits, w.(ramLimit := ramLimit), ops);
            && (u.Some? <==> v.Some?)
            && (v.Some? ==> u.value.rows == v.value.rows && u.value.usage == v.value.usage && u.value.ramLimit == LimitsAfterAll(ramLimit, ops))
    decreases |ops|
  {
    if ops != [] && Step(limits, w, ops[0]).Some? {
      var w1, u1 := Step(limits, w, ops[0]).value, Step(limits, w.(ramLimit := ramLimit), ops[0]).value;
      LimitsBindAtTheEnd(limits, w1, u1.ramLimit, ops[1..]);
      MarksIgnored(limits, w1.(ramLimit := u1.ramLimit), u1.marks, ops[1..]);
    }
  }

  lemma {:induction false} MarksIgnored(limits: Limits, w: World, marks: set<nat>, ops: seq<Op>)
    ensures var v, u := Steps(limits, w, ops), Steps(limits, w.(marks := marks), ops);
            && (u.Some? <==> v.Some?)
            && (v.Some? ==> u.value.rows == v.value.rows && u.value.usage == v.value.usage && u.value.ramLimit == v.value.ramLimit)
    decreases |ops|
  {
    if ops != [] && Step(limits, w, ops[0]).Some? {
      MarksIgnored(limits, Step(limits, w, ops[0]).value, Step(limits, w.(marks := marks), ops[0]).value.marks, ops[1..]);
    }
  }

  /** Of an account that is not marked, usage did not rise and the limit was not lowered. */
  ghost predicate OnlyMarked(w: World, v: World) {
    && v.usage.Keys == w.usage.Keys && v.ramLimit.Keys == w.ramLimit.Keys && w.marks <= v.marks
    && (forall a :: a in w.usage && a !in v.marks ==> v.usage[a] <= w.usage[a])
    && (forall a :: a in w.ramLimit && a !in v.marks ==> !Lowers(w.ramLimit[a], v.ramLimit[a]))
  }

  lemma StepMarks(limits: Limits, w: World, op: Op)
    requires Step(limits, w, op).Some? && w.usage.Keys == w.ramLimit.Keys
    ensures OnlyMarked(w, Step(limits, w, op).value)
  {
  }

  lemma {:induction false} StepsMark(limits: Limits, w: World, ops: seq<Op>)
    requires Steps(limits, w, ops).Some? && w.usage.Keys == w.ramLimit.Keys
    ensures OnlyMarked(w, Steps(limits, w, ops).value)
    decreases |ops|
  {
    if ops != [] {
      StepMarks(limits, w, ops[0]);
      StepsMark(limits, Step(limits, w, ops[0]).value, ops[1..]);
    }
  }

  /** No transaction takes an account over its limit, whatever happened in between. */
  lemma StaysWithin(limits: Limits, w: World, ops: seq<Op>)
    requires Commits(limits, w, ops) && w.usage.Keys == w.ramLimit.Keys
    ensures var v := Steps(limits, w, ops).value;
            && v.usage.Keys == v.ramLimit.Keys == w.usage.Keys
            && forall a :: a in w.usage && Within(w.usage[a], w.ramLimit[a]) ==> Within(v.usage[a], v.ramLimit[a])
  {
    StepsMark(limits, w, ops);
  }

  // --------------------------------------------------------------- books out of balance

  const KEY: RowKey := RowKey(5, [0])

  function Wide(): Limits { Limits(0xFFFF_FFFF, 0xFFFF_FFFF) }
  function Nothing(): World { World(map[], map[7 := 0], map[7 := -1], {}) }
  function Narrow(): World { World(map[KEY := Row(7, [])], map[7 := 113], map[7 := -1], {7}) }
  function Wrapped(wide: Bytes): World { World(map[KEY := Row(7, wide)], map[7 := 112], map[7 := -1], {7}) }

  /** A row with a key of one byte, updated to the longest value: the sizes together are
    * 2^32 and count as nothing. Its payer is charged 112 bytes for more than four
    * billion, and the row can never be erased again. */
  lemma WrapsToNothing(wide: Bytes)
    requires |wide| == 0xFFFF_FFFF
    ensures Books(map[7 := 0], Nothing().rows, Nothing().usage)
    ensures Steps(Wide(), Nothing(), [Set(5, KEY, [], 7), Set(5, KEY, wide, 7)]) == Some(Wrapped(wide))
    ensures !Books(map[7 := 0], Wrapped(wide).rows, Wrapped(wide).usage)
    ensures Step(Wide(), Wrapped(wide), Erase(5, KEY)).None?
  {
    var first, second := Set(5, KEY, [], 7), Set(5, KEY, wide, 7);
    FirstSet(first);
    SecondSet(second, wide);
    assert [first, second][1..] == [second] && [second][1..] == [];
    assert Steps(Wide(), Narrow(), [second]) == Some(Wrapped(wide));
    StepBooks(Wide(), map[7 := 0], Nothing(), first);
    StepBooks(Wide(), map[7 := 0], Narrow(), second);
  }

  lemma FirstSet(op: Op)
    requires op == Set(5, KEY, [], 7)
    ensures Step(Wide(), Nothing(), op) == Some(Narrow())
  {
    assert Cost(KEY, Row(7, [])) == 113;
    assert Adjust(map[7 := 0], 7, 113).value == map[7 := 113];
    assert RowsAfter(map[], op) == map[KEY := Row(7, [])] && Marks(map[], map[7 := -1], op) == {7};
    assert {} + {7} == {7};
  }

  lemma SecondSet(op: Op, wide: Bytes)
    requires op == Set(5, KEY, wide, 7) && |wide| == 0xFFFF_FFFF
    ensures Step(Wide(), Narrow(), op) == Some(Wrapped(wide)) && !Exact(Narrow().rows, op)
  {
    assert Cost32(KEY, Row(7, wide)) == 112 && Cost32(KEY, Row(7, [])) == 113;
    assert Adjust(map[7 := 113], 7, -1).value == map[7 := 112];
    assert RowsAfter(Narrow().rows, op) == map[KEY := Row(7, wide)] && Marks(Narrow().rows, map[7 := -1], op) == {};
    assert {7} + {} == {7};
  }
}
