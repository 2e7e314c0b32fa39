/** The wallet signer's broadcast ledger (src/noyra/signer_service.py).

    Hashes are symbolic, so equal hashes mean equal transfers.  Every answer of the RPC node is an
    arbitrary input.  `faults` scripts what the durable and network operations meet: they go
    through, they raise, or the process dies there. */
module Signer {
  import opened Wrappers

  type RequestId = string

  datatype Asset = Native | Token

  /** A transfer envelope whose fields have passed the schema. */
  datatype Transfer = Transfer(chainId: int, nonce: nat, gasLimit: nat, maxFee: nat, source: nat,
                               to: nat, value: nat, asset: Asset)

  /** `_transfer_hash` and the hash of the signed transaction. */
  datatype TransferHash = TransferHash(transfer: Transfer)
  datatype TxHash = TxHash(transfer: Transfer) | OtherHash(text: string)

  datatype Status = Pending | Broadcast | Unknown

  /** A row of `signer_requests`.  `envelope` is what `transfer_json` decodes to, if anything. */
  datatype Row = Row(transferHash: TransferHash, status: Status, txHash: TxHash, chainId: int, nonce: int,
                     gasLimit: int, maxFee: int, acceptedAt: Option<int>, envelope: Option<Transfer>, bound: bool)

  datatype Receipt = Receipt(txHash: TxHash, chainId: int, nonce: int, acceptedAt: Option<int>)

  datatype Reply =
    | Accepted(receipt: Receipt)
    | InvalidRequest
    | RequestConflict
    | NotAdmitted
    | BroadcastUnknown
    | InternalError
    | NoReply

  /** One `eth_sendRawTransaction` call, with the committed row of its request at that moment. */
  datatype Send = Send(id: RequestId, txHash: TxHash, committed: Option<Row>)

  datatype Fault = Proceed | Raise | Crash

  /** What the node answers during one call; None is an error or a malformed quantity. */
  datatype Answers = Answers(chainId: Option<int>, nonce: Option<int>, gas: Option<int>, fee: Option<int>,
                             balance: Option<int>, sent: Option<TxHash>)

  const CHAIN_ID := 11155111
  const INT64_MAX := 0x7FFF_FFFF_FFFF_FFFF
  const MAX_QUANTITY := 0xFFFF_FFFF_FFFF_FFFF_FFFF_FFFF_FFFF_FFFF_FFFF_FFFF_FFFF_FFFF_FFFF_FFFF_FFFF_FFFF
  const MAX_GAS := 30000000

  // ---------------------------------------------------------------- pure parts

  /** `parse_transfer` beyond the schema: the one chain, native assets only. */
  predicate Parses(transfer: Transfer) {
    transfer.chainId == CHAIN_ID && transfer.asset == Native
  }

  function Quantity(answer: Option<int>, maximum: int): Option<int> {
    if answer.Some? && 0 <= answer.value <= maximum then answer else None
  }

  /** `_admit`: the node is on the right chain, the nonce is next, gas and fee fit the envelope and
      the account can pay for all of it. */
  predicate Admitted(transfer: Transfer, answers: Answers) {
    && Quantity(answers.chainId, INT64_MAX) == Some(CHAIN_ID)
    && Quantity(answers.nonce, INT64_MAX) == Some(transfer.nonce)
    && Quantity(answers.gas, MAX_GAS).Some? && answers.gas.value <= transfer.gasLimit
    && Quantity(answers.fee, MAX_QUANTITY).Some? && 0 < answers.fee.value <= transfer.maxFee
    && Quantity(answers.balance, MAX_QUANTITY).Some?
    && answers.balance.value >= transfer.value + transfer.gasLimit * transfer.maxFee
  }

  lemma Product(a: nat, b: nat, c: nat, d: nat)
    requires a <= c && b <= d
    ensures a * b <= c * d
  {
    assert a * b <= a * d <= c * d;
  }

  /** An admitted transfer is on the one chain, at the account's next nonce, and can be paid for whatever gas it
      uses within its limit at whatever price within its maximum; the node's estimates are within both.  Any
      such transfer is admitted. */
  lemma AdmittedIff(transfer: Transfer, answers: Answers)
    ensures Admitted(transfer, answers)
        <==> && answers.chainId == Some(11155111)
             && answers.nonce == Some(transfer.nonce) && transfer.nonce <= 0x7FFF_FFFF_FFFF_FFFF
             && answers.gas.Some? && 0 <= answers.gas.value <= transfer.gasLimit && answers.gas.value <= 30_000_000
             && answers.fee.Some? && 0 < answers.fee.value <= transfer.maxFee
             && answers.fee.value <= MAX_QUANTITY
             && answers.balance.Some? && answers.balance.value <= MAX_QUANTITY
             && forall used: nat, price: nat | used <= transfer.gasLimit && price <= transfer.maxFee ::
                  transfer.value + used * price <= answers.balance.value
  {
    forall used: nat, price: nat | used <= transfer.gasLimit && price <= transfer.maxFee
      ensures used * price <= transfer.gasLimit * transfer.maxFee
    {
      Product(used, price, transfer.gasLimit, transfer.maxFee);
    }
    assert transfer.gasLimit * transfer.maxFee >= 0;
  }

  /** The comparison `SignerState.open` makes before it calls a row bound. */
  predicate Consistent(row: Row) {
    && row.envelope.Some?
    && Parses(row.envelope.value)
    && TransferHash(row.envelope.value) == row.transferHash
    && row.envelope.value.chainId == row.chainId
    && row.envelope.value.nonce == row.nonce
    && row.envelope.value.gasLimit == row.gasLimit
    && row.envelope.value.maxFee == row.maxFee
  }

  /** The envelope is a native transfer on the one chain, and every column agrees with it. */
  ghost predicate HoldsItsTransfer(row: Row) {
    exists nonce: nat, gasLimit: nat, maxFee: nat, source: nat, to: nat, value: nat ::
      var transfer := Transfer(11155111, nonce, gasLimit, maxFee, source, to, value, Native);
      && row.envelope == Some(transfer) && row.transferHash == TransferHash(transfer)
      && row.chainId == 11155111 && row.nonce == nonce && row.gasLimit == gasLimit && row.maxFee == maxFee
  }

  lemma ConsistentIff(row: Row)
    ensures Consistent(row) <==> HoldsItsTransfer(row)
  {
    if Consistent(row) {
      var t := row.envelope.value;
      assert t == Transfer(11155111, t.nonce, t.gasLimit, t.maxFee, t.source, t.to, t.value, Native);
    }
  }

  /** The row inserted before the send. */
  function PendingRow(transfer: Transfer): Row {
    Row(TransferHash(transfer), Pending, TxHash(transfer), transfer.chainId, transfer.nonce,
        transfer.gasLimit, transfer.maxFee, None, Some(transfer), true)
  }

  function ReceiptOf(row: Row): Receipt {
    Receipt(row.txHash, row.chainId, row.nonce, row.acceptedAt)
  }

  /** What `receipt` makes of a row before it asks the node: the transfer the chain must show. */
  function ExpectedTransfer(row: Row): Result<Transfer> {
    if !row.bound then Failure("legacy_unbound")
    else if row.envelope.None? || !Parses(row.envelope.value) then Failure("envelope is unavailable")
    else if TransferHash(row.envelope.value) != row.transferHash
            || row.envelope.value.chainId != row.chainId || row.envelope.value.nonce != row.nonce
    then Failure("envelope is invalid")
    else Success(row.envelope.value)
  }

  /** Which rows `receipt` can go on with, and with which transfer. */
  lemma ExpectedTransferIff(row: Row, transfer: Transfer)
    ensures ExpectedTransfer(row) == Success(transfer)
        <==> && row.bound && row.envelope == Some(transfer)
             && transfer.chainId == 11155111 == row.chainId && transfer.asset == Native
             && row.transferHash == TransferHash(transfer) && row.nonce == transfer.nonce
    ensures ExpectedTransfer(row) == Failure("legacy_unbound") <==> !row.bound
  {
  }

  // ---------------------------------------------------------------- the ledger over time

  /** What survives: the committed rows, and the history of sends. */
  datatype Ledger = Ledger(rows: map<RequestId, Row>, sent: seq<Send>)

  /** The send had a committed pending row of its own, bound to a consistent envelope, and the row
      still carries the same transaction. */
  ghost predicate Covered(l: Ledger, send: Send) {
    && send.committed.Some?
    && send.committed.value.status == Pending
    && send.committed.value.txHash == send.txHash
    && send.committed.value.bound && Consistent(send.committed.value)
    && send.txHash == TxHash(send.committed.value.envelope.value)
    && send.id in l.rows
    && l.rows[send.id].(status := Pending, acceptedAt := None) == send.committed.value
  }

  ghost predicate Inv(l: Ledger) {
    && (forall i | 0 <= i < |l.sent| :: Covered(l, l.sent[i]))
    && (forall i, j | 0 <= i < j < |l.sent| :: l.sent[i].id != l.sent[j].id)
  }

  datatype Operation =
    | TransferCall(id: RequestId, transfer: Transfer, reply: Reply)
    | Reopen

  /** A committed row changes only from pending to unknown once its call is over. */
  predicate MayBecome(was: Row, now: Row) {
    now == was || (was.status == Pending && now == was.(status := Unknown))
  }

  /** What one call of `transfer`, however it ends, may have done to the ledger. */
  ghost predicate CallStep(l: Ledger, after: Ledger, id: RequestId, transfer: Transfer, reply: Reply) {
    && (forall other | other != id ::
          && (other in l.rows <==> other in after.rows)
          && (other in l.rows ==> after.rows[other] == l.rows[other]))
    && (if id in l.rows then KnownRequest(l, after, id, transfer, reply)
        else NewRequest(l, after, id, transfer, reply))
  }

  /** A request already on file is answered from its row; nothing is sent for it. */
  ghost predicate KnownRequest(l: Ledger, after: Ledger, id: RequestId, transfer: Transfer, reply: Reply)
    requires id in l.rows
  {
    && after.sent == l.sent
    && id in after.rows && MayBecome(l.rows[id], after.rows[id])
    && (reply == InvalidRequest ==> after == l)
    && (reply != InvalidRequest ==>
          if l.rows[id].transferHash != TransferHash(transfer) then reply == RequestConflict && after == l
          else
            match l.rows[id].status
            case Broadcast => reply == Accepted(ReceiptOf(l.rows[id])) && after == l
            case Unknown => reply == BroadcastUnknown && after == l
            case Pending =>
              || (reply == BroadcastUnknown && after.rows[id].status == Unknown)
              || (reply in {InternalError, NoReply} && after == l))
  }

  /** A new request leaves no row at all, or its own row and at most one send of its own. */
  ghost predicate NewRequest(l: Ledger, after: Ledger, id: RequestId, transfer: Transfer, reply: Reply)
    requires id !in l.rows
  {
    if id !in after.rows then
      after.sent == l.sent && reply in {InvalidRequest, NotAdmitted, InternalError, NoReply}
    else
      && Parses(transfer)
      && (after.sent == l.sent
          || after.sent == l.sent + [Send(id, TxHash(transfer), Some(PendingRow(transfer)))])
      && after.rows[id].(status := Pending, acceptedAt := None) == PendingRow(transfer)
      && (after.rows[id].status == Broadcast ==> after.sent != l.sent && after.rows[id].acceptedAt.Some?)
      && (reply.Accepted? ==> after.rows[id].status == Broadcast && reply == Accepted(ReceiptOf(after.rows[id])))
      && (reply.Accepted? || reply in {BroadcastUnknown, InternalError, NoReply})
      && (reply == BroadcastUnknown ==> after.rows[id].status == Unknown)
  }

  function Reopened(rows: map<RequestId, Row>): map<RequestId, Row> {
    map id | id in rows :: rows[id].(bound := rows[id].bound || Consistent(rows[id]))
  }

  ghost predicate Steps(l: Ledger, after: Ledger, operation: Operation) {
    match operation
    case TransferCall(id, transfer, reply) => CallStep(l, after, id, transfer, reply)
    case Reopen => after == Ledger(Reopened(l.rows), l.sent)
  }

  lemma StepKeepsInv(l: Ledger, after: Ledger, operation: Operation)
    requires Inv(l) && Steps(l, after, operation)
    ensures Inv(after)
  {
    forall i | 0 <= i < |after.sent|
      ensures Covered(after, after.sent[i])
    {
      if i < |l.sent| {
        assert after.sent[i] == l.sent[i];
        assert Covered(l, l.sent[i]);
      }
    }
    forall i, j | 0 <= i < j < |after.sent|
      ensures after.sent[i].id != after.sent[j].id
    {
      assert Covered(l, l.sent[i]);
    }
  }

  /** A history: ledgers and the operations between them, with crashes inside any of the calls. */
  ghost predicate IsRun(ledgers: seq<Ledger>, operations: seq<Operation>) {
    && |ledgers| == |operations| + 1
    && forall i | 0 <= i < |operations| :: Steps(ledgers[i], ledgers[i + 1], operations[i])
  }

  lemma {:induction false} RunKeepsInv(ledgers: seq<Ledger>, operations: seq<Operation>, k: nat)
    requires IsRun(ledgers, operations) && Inv(ledgers[0]) && k < |ledgers|
    ensures Inv(ledgers[k])
  {
    if k > 0 {
      RunKeepsInv(ledgers, operations, k - 1);
      StepKeepsInv(ledgers[k - 1], ledgers[k], operations[k - 1]);
    }
  }

  /** At most one broadcast per request over any history of retries, failures and crashes, and none
      before a pending row with its hash and envelope was committed. */
  lemma AtMostOneBroadcast(ledgers: seq<Ledger>, operations: seq<Operation>, k: nat)
    requires IsRun(ledgers, operations) && Inv(ledgers[0]) && k < |ledgers|
    ensures forall i, j | 0 <= i < |ledgers[k].sent| && 0 <= j < |ledgers[k].sent| ::
              ledgers[k].sent[i].id == ledgers[k].sent[j].id ==> i == j
    ensures forall i | 0 <= i < |ledgers[k].sent| :: Covered(ledgers[k], ledgers[k].sent[i])
  {
    RunKeepsInv(ledgers, operations, k);
  }

  // ---------------------------------------------------------------- stable answers

  /** A row on file later: same request, same transaction; the status has not moved back. */
  predicate Succeeds(was: Row, now: Row) {
    && now.(status := was.status, bound := was.bound) == was
    && (was.bound ==> now.bound)
    && (now.status == was.status || (was.status == Pending && now.status == Unknown))
  }

  /** Rows never disappear; a request stays bound to its first transfer hash and transaction, and its
      status moves only from pending to unknown. */
  lemma {:induction false} RowsOnlyMoveForward(ledgers: seq<Ledger>, operations: seq<Operation>, i: nat, j: nat,
                                               id: RequestId)
    requires IsRun(ledgers, operations) && i <= j < |ledgers|
    requires id in ledgers[i].rows
    ensures id in ledgers[j].rows && Succeeds(ledgers[i].rows[id], ledgers[j].rows[id])
    decreases j
  {
    if i < j {
      RowsOnlyMoveForward(ledgers, operations, i, j - 1, id);
      assert Steps(ledgers[j - 1], ledgers[j], operations[j - 1]);
    }
  }

  /** A successful reply repeats for ever; the same id with another transfer is refused for ever. */
  lemma RepliesAreStable(ledgers: seq<Ledger>, operations: seq<Operation>, i: nat, j: nat)
    requires IsRun(ledgers, operations) && i < j < |operations|
    requires operations[i].TransferCall? && operations[i].reply.Accepted?
    requires operations[j].TransferCall? && operations[j].id == operations[i].id
    requires operations[j].reply != InvalidRequest
    ensures operations[j].transfer == operations[i].transfer ==> operations[j].reply == operations[i].reply
    ensures operations[j].transfer != operations[i].transfer ==> operations[j].reply == RequestConflict
    ensures ledgers[j + 1] == ledgers[j]
  {
    var id := operations[i].id;
    assert Steps(ledgers[i], ledgers[i + 1], operations[i]);
    assert Steps(ledgers[j], ledgers[j + 1], operations[j]);
    RowsOnlyMoveForward(ledgers, operations, i + 1, j, id);
  }

  /** A retry that was answered settles the request: its row is not pending then, and never again. */
  lemma RetrySettles(ledgers: seq<Ledger>, operations: seq<Operation>, i: nat, j: nat)
    requires IsRun(ledgers, operations) && i < |operations| && i < j < |ledgers|
    requires operations[i].TransferCall? && operations[i].id in ledgers[i].rows
    requires operations[i].reply == BroadcastUnknown
    ensures var id := operations[i].id;
            && id in ledgers[j].rows && ledgers[j].rows[id].status == Unknown
            && ledgers[i].rows[id].status in {Pending, Unknown}
  {
    assert Steps(ledgers[i], ledgers[i + 1], operations[i]);
    RowsOnlyMoveForward(ledgers, operations, i + 1, j, operations[i].id);
  }

  /** Whatever was ever sent can be reconciled: its request still has a bound row from which
      `receipt` recovers the very transfer that was signed. */
  lemma SentIsReconcilable(ledgers: seq<Ledger>, operations: seq<Operation>, k: nat, i: nat)
    requires IsRun(ledgers, operations) && Inv(ledgers[0]) && k < |ledgers| && i < |ledgers[k].sent|
    ensures var send := ledgers[k].sent[i];
            && send.id in ledgers[k].rows
            && ledgers[k].rows[send.id].txHash == send.txHash
            && ExpectedTransfer(ledgers[k].rows[send.id]).Success?
            && send.txHash == TxHash(ExpectedTransfer(ledgers[k].rows[send.id]).value)
  {
    RunKeepsInv(ledgers, operations, k);
    assert Covered(ledgers[k], ledgers[k].sent[i]);
  }

  // ---------------------------------------------------------------- looking a transaction up

  /** The rows among which the query of `receipt` takes the first: by hash and chain, not by request. */
  function Candidates(rows: map<RequestId, Row>, txHash: TxHash, chainId: int): set<RequestId> {
    set id | id in rows && rows[id].txHash == txHash && rows[id].chainId == chainId
  }

  /** Rows as this program and its predecessors write them: a bound row has a consistent envelope, and an
      envelope is that of the transaction whose hash the row carries.  Old rows may have no envelope. */
  ghost predicate Honest(rows: map<RequestId, Row>) {
    forall id | id in rows ::
      && (rows[id].bound ==> Consistent(rows[id]))
      && (Consistent(rows[id]) ==> rows[id].txHash == TxHash(rows[id].envelope.value))
  }

  lemma {:induction false} RunKeepsHonest(ledgers: seq<Ledger>, operations: seq<Operation>, k: nat)
    requires IsRun(ledgers, operations) && Honest(ledgers[0].rows) && k < |ledgers|
    ensures Honest(ledgers[k].rows)
  {
    if k > 0 {
      RunKeepsHonest(ledgers, operations, k - 1);
      StepKeepsHonest(ledgers[k - 1], ledgers[k], operations[k - 1]);
    }
  }

  lemma StepKeepsHonest(l: Ledger, after: Ledger, operation: Operation)
    requires Honest(l.rows) && Steps(l, after, operation)
    ensures Honest(after.rows)
  {
    forall id | id in after.rows
      ensures after.rows[id].bound ==> Consistent(after.rows[id])
      ensures Consistent(after.rows[id]) ==> after.rows[id].txHash == TxHash(after.rows[id].envelope.value)
    {
      if id in l.rows {
        assert Consistent(after.rows[id]) <==> Consistent(l.rows[id]);
      }
    }
  }

  /** Asked for a transaction that was ever sent, `receipt` finds a row; and it goes on with the very transfer
      that was signed, whichever row the query returns, if and only if no row with that hash is unbound.  An
      older unbound row with the same hash makes it answer `legacy_unbound`. */
  lemma ReceiptFindsTransferIff(ledgers: seq<Ledger>, operations: seq<Operation>, k: nat, i: nat)
    requires IsRun(ledgers, operations) && Inv(ledgers[0]) && Honest(ledgers[0].rows)
    requires k < |ledgers| && i < |ledgers[k].sent|
    ensures var rows, send := ledgers[k].rows, ledgers[k].sent[i];
            var found := Candidates(rows, send.txHash, CHAIN_ID);
            && (forall id :: id in found <==>
                  id in rows && rows[id].txHash == send.txHash && rows[id].chainId == 11155111)
            && send.id in found && rows[send.id].bound
            && send.txHash.TxHash?
            && (forall id | id in found ::
                  ExpectedTransfer(rows[id])
                  == if rows[id].bound then Success(send.txHash.transfer) else Failure("legacy_unbound"))
            && ((forall id | id in found :: ExpectedTransfer(rows[id]) == Success(send.txHash.transfer))
                <==> forall id | id in found :: rows[id].bound)
  {
    RunKeepsInv(ledgers, operations, k);
    RunKeepsHonest(ledgers, operations, k);
    var rows, send := ledgers[k].rows, ledgers[k].sent[i];
    assert Covered(ledgers[k], send);
    forall id | id in Candidates(rows, send.txHash, CHAIN_ID)
      ensures ExpectedTransfer(rows[id])
              == if rows[id].bound then Success(send.txHash.transfer) else Failure("legacy_unbound")
    {
    }
  }

  /** It does happen, for every transfer: an old row without an envelope carries the hash, and the same
      transfer is accepted under another request id. */
  lemma UnboundRowAnswersFirst(transfer: Transfer, legacy: RequestId, id: RequestId, time: int)
    requires Parses(transfer) && legacy != id
    ensures var stale := PendingRow(transfer).(status := Broadcast, acceptedAt := Some(time), envelope := None,
                                               bound := false);
            var row := PendingRow(transfer).(status := Broadcast, acceptedAt := Some(time));
            var start := Ledger(map[legacy := stale], []);
            var end := Ledger(start.rows[id := row], [Send(id, TxHash(transfer), Some(PendingRow(transfer)))]);
            && Inv(start) && Honest(start.rows)
            && IsRun([start, end], [TransferCall(id, transfer, Accepted(ReceiptOf(row)))])
            && legacy in Candidates(end.rows, end.sent[0].txHash, CHAIN_ID)
            && ExpectedTransfer(end.rows[legacy]) == Failure("legacy_unbound")
  {
    var stale := PendingRow(transfer).(status := Broadcast, acceptedAt := Some(time), envelope := None, bound := false);
    var row := PendingRow(transfer).(status := Broadcast, acceptedAt := Some(time));
    var start := Ledger(map[legacy := stale], []);
    var end := Ledger(start.rows[id := row], [Send(id, TxHash(transfer), Some(PendingRow(transfer)))]);
    assert end.sent == start.sent + [Send(id, TxHash(transfer), Some(PendingRow(transfer)))];
    assert NewRequest(start, end, id, transfer, Accepted(ReceiptOf(row)));
    assert Steps(start, end, TransferCall(id, transfer, Accepted(ReceiptOf(row))));
  }

  /** How a request on file is answered when nothing goes wrong, and what becomes of its row. */
  ghost function RetryReply(row: Row, transfer: Transfer): Reply {
    if row.transferHash.transfer != transfer then RequestConflict
    else if row.status == Broadcast then Accepted(Receipt(row.txHash, row.chainId, row.nonce, row.acceptedAt))
    else BroadcastUnknown
  }

  ghost function RetriedRow(row: Row, transfer: Transfer): Row {
    if row.transferHash.transfer == transfer && row.status != Broadcast then row.(status := Unknown) else row
  }

  // ---------------------------------------------------------------- the engine

  class SignerEngine {
    const address: nat
    var rows: map<RequestId, Row>
    var faults: seq<Fault>
    ghost var sent: seq<Send>

    ghost function State(): Ledger
      reads this
    {
      Ledger(rows, sent)
    }

    ghost predicate Valid()
      reads this
    {
      Inv(State())
    }

    /** An engine over stored rows, before it has sent anything. */
    constructor (address: nat, rows: map<RequestId, Row>, faults: seq<Fault>)
      ensures Valid() && this.address == address && this.rows == rows && this.faults == faults && sent == []
    {
      this.address, this.rows, this.faults, this.sent := address, rows, faults, [];
    }

    /** What the next durable or network operation meets. */
    method NextFault() returns (fault: Fault)
      modifies this`faults
      ensures old(faults) == [] ==> fault == Proceed && faults == []
    {
      fault := Proceed;
      if faults != [] {
        fault := faults[0];
        faults := faults[1..];
      }
    }

    /** A committed transaction on the requests table, or none. */
    method Commit(id: RequestId, row: Row) returns (fault: Fault)
      modifies this`rows, this`faults
      ensures rows == if fault == Proceed then old(rows)[id := row] else old(rows)
      ensures old(faults) == [] ==> fault == Proceed && faults == []
    {
      fault := NextFault();
      if fault == Proceed {
        rows := rows[id := row];
      }
    }

    /** `eth_sendRawTransaction`.  Its row must be committed by now.  However the call ends, the
        transaction may be out, so it always counts as sent. */
    method Issue(id: RequestId, txHash: TxHash) returns (fault: Fault)
      requires id in rows && rows[id].status == Pending && rows[id].txHash == txHash && rows[id].bound
      modifies this`sent, this`faults
      ensures sent == old(sent) + [Send(id, txHash, Some(rows[id]))]
      ensures old(faults) == [] ==> fault == Proceed && faults == []
    {
      sent := sent + [Send(id, txHash, Some(rows[id]))];
      fault := NextFault();
    }

    predicate WellAddressed(id: RequestId, transfer: Transfer) {
      1 <= |id| <= 256 && Parses(transfer) && transfer.source == address
    }

    /** `transfer`. */
    method Transfer(id: RequestId, transfer: Transfer, signs: bool, answers: Answers, now: int)
      returns (reply: Reply)
      requires Valid()
      modifies this
      ensures Valid()
      ensures CallStep(old(State()), State(), id, transfer, reply)
      ensures reply == InvalidRequest <==> !WellAddressed(id, transfer)
      ensures reply == InvalidRequest <==>
                !(1 <= |id| <= 256 && transfer.chainId == 11155111 && transfer.asset == Native
                  && transfer.source == address)
      ensures WellAddressed(id, transfer) && id in old(rows) ==>
                && sent == old(sent)
                && (old(faults) == [] ==>
                      && reply == RetryReply(old(rows)[id], transfer)
                      && rows == old(rows)[id := RetriedRow(old(rows)[id], transfer)])
                && (reply in {InternalError, NoReply} ==> rows == old(rows) && old(faults) != [])
      ensures WellAddressed(id, transfer) && id !in old(rows) ==>
                (reply == NotAdmitted <==> !signs || !Admitted(transfer, answers))
      ensures old(faults) == [] && WellAddressed(id, transfer) && id !in old(rows)
              && signs && Admitted(transfer, answers) ==>
                && sent == old(sent) + [Send(id, TxHash(transfer), Some(PendingRow(transfer)))]
                && (if answers.sent == Some(TxHash(transfer))
                    then reply == Accepted(Receipt(TxHash(transfer), CHAIN_ID, transfer.nonce, Some(now)))
                    else reply == BroadcastUnknown && rows[id].status == Unknown)
    {
      if !WellAddressed(id, transfer) {
        return InvalidRequest;
      }
      if id in rows {
        reply := AnswerFromRow(id, transfer);
      } else if !signs || !Admitted(transfer, answers) {
        reply := NotAdmitted;
      } else {
        reply := FirstBroadcast(id, transfer, answers, now);
      }
    }

    /** A request on file.  A pending row means a call died around its send: it becomes unknown. */
    method AnswerFromRow(id: RequestId, transfer: Transfer) returns (reply: Reply)
      requires id in rows
      modifies this
      ensures sent == old(sent)
      ensures forall other | other != id ::
                && (other in old(rows) <==> other in rows)
                && (other in rows ==> rows[other] == old(rows)[other])
      ensures reply != InvalidRequest && KnownRequest(old(State()), State(), id, transfer, reply)
      ensures old(faults) == [] ==>
                && reply == RetryReply(old(rows)[id], transfer)
                && rows == old(rows)[id := RetriedRow(old(rows)[id], transfer)]
      ensures reply in {InternalError, NoReply} ==> rows == old(rows) && old(faults) != []
    {
      var row := rows[id];
      assert rows == rows[id := row];
      if row.transferHash != TransferHash(transfer) {
        return RequestConflict;
      }
      match row.status
      case Unknown =>
        return BroadcastUnknown;
      case Pending =>
        var fault := Commit(id, row.(status := Unknown));
        return if fault == Proceed then BroadcastUnknown else if fault == Raise then InternalError else NoReply;
      case Broadcast =>
        return Accepted(ReceiptOf(row));
    }

    /** A new request: the pending row is durable before the send, and the verdict after it. */
    method FirstBroadcast(id: RequestId, transfer: Transfer, answers: Answers, now: int) returns (reply: Reply)
      requires id !in rows && Parses(transfer)
      modifies this
      ensures forall other | other != id ::
                && (other in old(rows) <==> other in rows)
                && (other in rows ==> rows[other] == old(rows)[other])
      ensures NewRequest(old(State()), State(), id, transfer, reply)
      ensures reply != InvalidRequest && reply != NotAdmitted
      ensures old(faults) == [] ==>
                && sent == old(sent) + [Send(id, TxHash(transfer), Some(PendingRow(transfer)))]
                && id in rows
                && (if answers.sent == Some(TxHash(transfer))
                    then reply == Accepted(Receipt(TxHash(transfer), CHAIN_ID, transfer.nonce, Some(now)))
                    else reply == BroadcastUnknown && rows[id].status == Unknown)
    {
      var row := PendingRow(transfer);
      var fault := Commit(id, row);
      if fault != Proceed {
        return if fault == Raise then InternalError else NoReply;
      }
      fault := Issue(id, row.txHash);
      if fault == Crash {
        return NoReply;
      }
      if fault == Raise || answers.sent != Some(row.txHash) {
        fault := Commit(id, row.(status := Unknown));
        return if fault == Proceed then BroadcastUnknown else if fault == Raise then InternalError else NoReply;
      }
      row := row.(status := Broadcast, acceptedAt := Some(now));
      fault := Commit(id, row);
      return if fault == Proceed then Accepted(ReceiptOf(row)) else if fault == Raise then InternalError else NoReply;
    }

    /** `SignerState.open`: rows not yet bound are compared with their stored envelope. */
    method Open()
      requires Valid()
      modifies this`rows
      ensures Valid() && Steps(old(State()), State(), Reopen)
      ensures rows.Keys == old(rows).Keys && forall id | id in rows ::
                && rows[id].(bound := old(rows)[id].bound) == old(rows)[id]
                && (rows[id].bound <==> old(rows)[id].bound || HoldsItsTransfer(old(rows)[id]))
    {
      var candidates := set id | id in rows && !rows[id].bound;
      while candidates != {}
        invariant rows.Keys == old(rows).Keys
        invariant forall id | id in candidates :: id in rows && !rows[id].bound && rows[id] == old(rows)[id]
        invariant forall id | id in rows && id !in candidates :: rows[id] == Reopened(old(rows))[id]
        decreases candidates
      {
        var id :| id in candidates;
        rows := rows[id := rows[id].(bound := Consistent(rows[id]))];
        candidates := candidates - {id};
      }
      assert rows == Reopened(old(rows));
      forall id | id in rows ensures rows[id].bound <==> old(rows)[id].bound || HoldsItsTransfer(old(rows)[id]) {
        ConsistentIff(old(rows)[id]);
      }
      StepKeepsInv(old(State()), State(), Reopen);
    }
  }
}
