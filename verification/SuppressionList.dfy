/** The suppression list: the rows that stop an address from being written to. */
module SuppressionList {
  import opened Wrappers
  import opened Schema
  import opened Text

  predicate Active(row: Suppression) {
    row.removedAt.None?
  }

  /** Does this row stop mail of `tenant` to `address`? A row without a tenant stops everyone's. */
  predicate Blocks(row: Suppression, tenant: nat, address: string) {
    && Active(row)
    && Lower(row.address) == Lower(address)
    && (row.tenant.None? || row.tenant == Some(tenant))
  }

  predicate IsSuppressed(rows: seq<Suppression>, tenant: nat, address: string) {
    exists i :: 0 <= i < |rows| && Blocks(rows[i], tenant, address)
  }

  /** The key of the unique index over active rows, in which absent tenants are equal. */
  predicate SameKey(row: Suppression, tenant: Option<nat>, address: string) {
    Active(row) && row.tenant == tenant && Lower(row.address) == Lower(address)
  }

  predicate Listed(rows: seq<Suppression>, tenant: Option<nat>, address: string) {
    exists i :: 0 <= i < |rows| && SameKey(rows[i], tenant, address)
  }

  /** Insert unless an active row has the same key. */
  function Add(rows: seq<Suppression>, now: Time, tenant: Option<nat>, address: string,
               reason: string, source: string, detail: Option<string>): (r: seq<Suppression>)
    ensures Listed(r, tenant, address)
    ensures rows <= r
    ensures |r| <= |rows| + 1
    ensures forall i | |rows| <= i < |r| ::
              r[i] == Suppression(tenant, address, reason, source, detail, now, None, None)
  {
    if Listed(rows, tenant, address) then rows
    else
      var row := Suppression(tenant, address, reason, source, detail, now, None, None);
      assert SameKey((rows + [row])[|rows|], tenant, address);
      rows + [row]
  }

  /** Lift a row: it keeps its place in the history. */
  function Lift(rows: seq<Suppression>, now: Time, id: nat, removedBy: string): (r: (seq<Suppression>, bool))
    ensures |r.0| == |rows|
    ensures r.1 <==> id < |rows| && rows[id].removedAt.None?
    ensures forall i | 0 <= i < |rows| && !(r.1 && i == id) :: r.0[i] == rows[i]
    ensures r.1 ==> r.0[id] == rows[id].(removedAt := Some(now), removedBy := Some(removedBy))
  {
    if id < |rows| && Active(rows[id]) then
      (rows[id := rows[id].(removedAt := Some(now), removedBy := Some(removedBy))], true)
    else (rows, false)
  }

  /** At most one active row per scope and lower-cased address. */
  predicate Unique(rows: seq<Suppression>) {
    forall i, j | 0 <= i < j < |rows| && Active(rows[i]) ::
      !SameKey(rows[j], rows[i].tenant, rows[i].address)
  }

  lemma AddKeepsUnique(rows: seq<Suppression>, now: Time, tenant: Option<nat>, address: string,
                       reason: string, source: string, detail: Option<string>)
    requires Unique(rows)
    ensures Unique(Add(rows, now, tenant, address, reason, source, detail))
  {
  }

  lemma LiftKeepsUnique(rows: seq<Suppression>, now: Time, id: nat, removedBy: string)
    requires Unique(rows)
    ensures Unique(Lift(rows, now, id, removedBy).0)
  {
  }

  /** Adding an entry changes the answer for exactly the tenants it covers, and only for its address:
      a tenant-scoped entry never changes another tenant's mail. */
  lemma AddAffects(rows: seq<Suppression>, now: Time, tenant: Option<nat>, address: string,
                   reason: string, source: string, detail: Option<string>, other: nat, rcpt: string)
    ensures IsSuppressed(Add(rows, now, tenant, address, reason, source, detail), other, rcpt)
       <==> IsSuppressed(rows, other, rcpt)
            || (Lower(address) == Lower(rcpt) && (tenant.None? || tenant == Some(other)))
  {
  }
}
