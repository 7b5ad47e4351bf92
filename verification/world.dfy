/** The world state the interpreter reads and writes: accounts with balance, nonce, code
    and storage, and a journal of snapshots that TakeSnapshot extends and Restore rolls
    back to. The trie-backed providers behind IWorldState are not part of this model; this
    is the map-and-log view the interpreter relies on. */
module WorldState {

  import opened Prelude

  datatype Account = Account(balance: nat, nonce: nat, code: seq<byte>, storage: map<Word, Word>)

  type State = map<Address, Account>

  /** An account is empty (EIP-161) when it has no balance, no nonce and no code. */
  predicate IsEmpty(a: Account)
  {
    a.balance == 0 && a.nonce == 0 && |a.code| == 0
  }

  predicate AccountExists(s: State, address: Address)
  {
    address in s
  }

  /** A dead account is one that does not exist or is empty. */
  predicate IsDeadAccount(s: State, address: Address)
  {
    address !in s || IsEmpty(s[address])
  }

  function Balance(s: State, address: Address): nat
  {
    if address in s then s[address].balance else 0
  }

  function Nonce(s: State, address: Address): nat
  {
    if address in s then s[address].nonce else 0
  }

  function Code(s: State, address: Address): seq<byte>
  {
    if address in s then s[address].code else []
  }

  /** CreateAccount: a fresh account holding `balance` and nothing else. */
  function CreateAccount(s: State, address: Address, balance: nat): (r: State)
    ensures AccountExists(r, address) && Balance(r, address) == balance
    ensures Nonce(r, address) == 0 && Code(r, address) == [] && r[address].storage == map[]
    ensures forall other :: other != address ==> (other in r <==> other in s)
    ensures forall other :: other in s && other != address ==> r[other] == s[other]
  {
    s[address := Account(balance, 0, [], map[])]
  }

  /** AddToBalance on an existing account. */
  function AddToBalance(s: State, address: Address, value: nat): (r: State)
    requires AccountExists(s, address)
    ensures r.Keys == s.Keys
    ensures Balance(r, address) == Balance(s, address) + value
    ensures r[address] == s[address].(balance := Balance(s, address) + value)
    ensures forall other :: other in s && other != address ==> r[other] == s[other]
  {
    s[address := s[address].(balance := s[address].balance + value)]
  }

  /** Credit `value`, creating the account when it does not exist yet: what a frame does
      to the account it executes in before running. */
  function CreditOrCreate(s: State, address: Address, value: nat): (r: State)
    ensures AccountExists(r, address)
    ensures Balance(r, address) == Balance(s, address) + value
    ensures r.Keys == s.Keys + {address}
    ensures forall other :: other in s && other != address ==> r[other] == s[other]
  {
    if address in s then AddToBalance(s, address, value) else CreateAccount(s, address, value)
  }

  /** SubtractFromBalance; the interpreter checks the balance before calling it. */
  function SubtractFromBalance(s: State, address: Address, value: nat): (r: State)
    requires value <= Balance(s, address)
    ensures Balance(r, address) == Balance(s, address) - value
    ensures value == 0 ==> r == s
    ensures r.Keys == s.Keys
    ensures forall other :: other in s && other != address ==> r[other] == s[other]
  {
    if value == 0 then s
    else s[address := s[address].(balance := s[address].balance - value)]
  }

  function IncrementNonce(s: State, address: Address): (r: State)
    requires AccountExists(s, address)
    ensures Nonce(r, address) == Nonce(s, address) + 1
    ensures r[address].balance == s[address].balance && r[address].code == s[address].code
    ensures r.Keys == s.Keys
    ensures forall other :: other in s && other != address ==> r[other] == s[other]
  {
    s[address := s[address].(nonce := s[address].nonce + 1)]
  }

  /** UpdateCode and UpdateCodeHash together: install `code` as the account's code. The
      account is one the interpreter created earlier in the frame; should it have been
      removed since, the state is left alone. */
  function InsertCode(s: State, address: Address, code: seq<byte>): (r: State)
    ensures address in s ==> Code(r, address) == code
    ensures Balance(r, address) == Balance(s, address) && Nonce(r, address) == Nonce(s, address)
    ensures address !in s ==> r == s
    ensures r.Keys == s.Keys
    ensures forall other :: other in s && other != address ==> r[other] == s[other]
  {
    if address in s then s[address := s[address].(code := code)] else s
  }

  /** UpdateStorageRoot to the empty tree, or ClearStorage: drop every slot. */
  function ClearStorage(s: State, address: Address): (r: State)
    ensures address in s ==> address in r && r[address].storage == map[]
    ensures address in s ==> r[address] == s[address].(storage := map[])
    ensures address !in s ==> r == s
    ensures r.Keys == s.Keys
  {
    if address in s then s[address := s[address].(storage := map[])] else s
  }

  function DeleteAccount(s: State, address: Address): (r: State)
    ensures !AccountExists(r, address)
    ensures r.Keys == s.Keys - {address}
    ensures forall other :: other in r ==> r[other] == s[other]
  {
    map k | k in s && k != address :: s[k]
  }

  /** Set one storage slot of an existing account. */
  function SetStorage(s: State, address: Address, index: Word, value: Word): (r: State)
    requires AccountExists(s, address)
    ensures r.Keys == s.Keys
    ensures r[address].storage == s[address].storage[index := value]
    ensures forall other :: other in s && other != address ==> r[other] == s[other]
  {
    s[address := s[address].(storage := s[address].storage[index := value])]
  }

  /** The world state with its snapshot log: `saved[i]` is the state recorded by the i-th
      snapshot still valid. */
  datatype Journal = Journal(current: State, saved: seq<State>)

  datatype Snapshotted = Snapshotted(journal: Journal, id: nat)

  /** TakeSnapshot: record the current state and return its id. */
  function TakeSnapshot(j: Journal): (r: Snapshotted)
    ensures r.id == |j.saved| && r.id < |r.journal.saved|
    ensures r.journal.current == j.current
    ensures r.journal.saved[r.id] == j.current
    ensures r.journal.saved[..r.id] == j.saved
  {
    Snapshotted(Journal(j.current, j.saved + [j.current]), |j.saved|)
  }

  /** Restore: go back to the state snapshot `id` recorded; later snapshots are discarded,
      the restored one stays valid. */
  function Restore(j: Journal, id: nat): (r: Journal)
    requires id < |j.saved|
    ensures r.current == j.saved[id]
    ensures |r.saved| == id + 1 && r.saved == j.saved[..id + 1]
  {
    Journal(j.saved[id], j.saved[..id + 1])
  }

  /** Replace the current state, keeping the log. */
  function Apply(j: Journal, s: State): (r: Journal)
    ensures r.current == s && r.saved == j.saved
  {
    j.(current := s)
  }

  /** Whatever happened after a snapshot, restoring it brings back exactly the state it
      recorded, as long as the log still holds it unchanged. */
  lemma RestoreUndoes(before: Journal, after: Journal)
    requires |before.saved| < |after.saved|
    requires after.saved[..|before.saved| + 1] == TakeSnapshot(before).journal.saved
    ensures Restore(after, TakeSnapshot(before).id).current == before.current
  {
    var t := TakeSnapshot(before);
    assert after.saved[t.id] == after.saved[..t.id + 1][t.id];
  }

  /** Restoring twice to the same snapshot is restoring once. */
  lemma RestoreIdempotent(j: Journal, id: nat)
    requires id < |j.saved|
    ensures Restore(Restore(j, id), id) == Restore(j, id)
  {
    assert j.saved[..id + 1][..id + 1] == j.saved[..id + 1];
  }

  /** Restoring an inner snapshot and then an outer one is restoring the outer one. */
  lemma RestoreNested(j: Journal, outer: nat, inner: nat)
    requires outer <= inner < |j.saved|
    ensures outer < |Restore(j, inner).saved|
    ensures Restore(Restore(j, inner), outer) == Restore(j, outer)
  {
    assert j.saved[..inner + 1][..outer + 1] == j.saved[..outer + 1];
    assert j.saved[..inner + 1][outer] == j.saved[outer];
  }
}
