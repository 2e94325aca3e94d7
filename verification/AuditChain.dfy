/** The hash-chained audit trail. The digest of a record's canonical bytes is a function parameter;
    the theorems take it to be injective and never equal to the genesis value. */
module AuditChain {
  import opened Prelude

  function Zeros(n: nat): (s: string)
    ensures |s| == n
  {
    if n == 0 then "" else Zeros(n - 1) + "0"
  }

  function Genesis(): string {
    Zeros(64)
  }

  lemma {:induction false} ZerosAreZeros(n: nat, k: nat)
    requires k < n
    ensures Zeros(n)[k] == '0'
  {
    if k < n - 1 {
      ZerosAreZeros(n - 1, k);
    }
  }

  /** The first record refers to 64 zeros. */
  lemma GenesisIsZeros(k: nat)
    ensures |Genesis()| == 64 && (k < 64 ==> Genesis()[k] == '0')
  {
    hide Zeros;
    if k < 64 {
      ZerosAreZeros(64, k);
    }
  }

  /** A record without its own hash. A key may be missing from a record that was tampered with. */
  datatype Content = Content(sequence: int, occurredAt: string, eventType: string, outcome: string,
                             details: string, previousHash: Option<string>)
  datatype Record = Record(content: Content, recordHash: Option<string>)
  type Digest = Content -> string

  function LastHash(records: seq<Record>): Option<string> {
    if records == [] then Some(Genesis()) else records[|records| - 1].recordHash
  }

  /** The record names its predecessor's hash and carries the digest of its own content. */
  ghost predicate Chained(digest: Digest, record: Record, previousHash: Option<string>) {
    record.content.previousHash == previousHash && record.recordHash == Some(digest(record.content))
  }

  ghost predicate Verified(digest: Digest, records: seq<Record>) {
    forall i :: 0 <= i < |records| ==> Chained(digest, records[i], LastHash(records[..i]))
  }

  lemma NoHashYet(records: seq<Record>)
    ensures LastHash(records[..0]) == Some(Genesis())
  {
  }

  lemma LastHashAfter(records: seq<Record>, i: nat)
    requires i < |records|
    ensures LastHash(records[..i + 1]) == records[i].recordHash
  {
  }

  /** Verification in the fields of neighbouring records. */
  lemma VerifiedByNeighbours(digest: Digest, records: seq<Record>)
    ensures Verified(digest, records) <==> forall i :: 0 <= i < |records| ==>
              && records[i].recordHash == Some(digest(records[i].content))
              && records[i].content.previousHash == if i == 0 then Some(Genesis()) else records[i - 1].recordHash
  {
    hide LastHash, Genesis;
    forall i | 0 <= i < |records|
      ensures LastHash(records[..i]) == if i == 0 then Some(Genesis()) else records[i - 1].recordHash
    {
      if i == 0 {
        NoHashYet(records);
      } else {
        LastHashAfter(records, i - 1);
      }
    }
  }

  datatype Entry = Entry(eventType: string, outcome: string, details: string, occurredAt: string)

  function NextRecord(digest: Digest, records: seq<Record>, e: Entry): Record {
    var content := Content(|records| + 1, e.occurredAt, e.eventType, e.outcome, e.details, LastHash(records));
    Record(content, Some(digest(content)))
  }

  /** The trail left by appending these entries to an empty one. */
  function Built(digest: Digest, entries: seq<Entry>): (records: seq<Record>)
    ensures |records| == |entries|
  {
    if entries == [] then []
    else
      var before := Built(digest, entries[..|entries| - 1]);
      before + [NextRecord(digest, before, entries[|entries| - 1])]
  }

  class AuditTrail {
    var records: seq<Record>

    constructor ()
      ensures records == []
    {
      records := [];
    }

    /** A last record whose hash is missing would raise a KeyError; `Append` never leaves one. */
    method Append(digest: Digest, e: Entry) returns (record: Record)
      requires LastHash(records).Some?
      modifies this
      ensures record == NextRecord(digest, old(records), e)
      ensures records == old(records) + [record]
      ensures LastHash(records).Some?
      ensures && record.content.sequence == |old(records)| + 1 && record.content.occurredAt == e.occurredAt
              && record.content.eventType == e.eventType && record.content.outcome == e.outcome && record.content.details == e.details
              && record.content.previousHash == (if old(records) == [] then Some(Genesis()) else old(records)[|old(records)| - 1].recordHash)
              && record.recordHash == Some(digest(record.content))
    {
      var previousHash := if |records| > 0 then records[|records| - 1].recordHash else Some(Genesis());
      var content := Content(|records| + 1, e.occurredAt, e.eventType, e.outcome, e.details, previousHash);
      record := Record(content, Some(digest(content)));
      records := records + [record];
    }

    method Verify(digest: Digest) returns (valid: bool)
      ensures valid <==> Verified(digest, records)
    {
      hide LastHash, Zeros;
      var previousHash := Some(Genesis());
      NoHashYet(records);
      for i := 0 to |records|
        invariant previousHash == LastHash(records[..i])
        invariant forall j :: 0 <= j < i ==> Chained(digest, records[j], LastHash(records[..j]))
      {
        var record := records[i];
        if record.content.previousHash != previousHash {
          return false;
        }
        if record.recordHash != Some(digest(record.content)) {
          return false;
        }
        previousHash := record.recordHash;
        LastHashAfter(records, i);
      }
      return true;
    }
  }

  /** Appending keeps a trail verified. */
  lemma AppendKeepsVerified(digest: Digest, records: seq<Record>, e: Entry)
    requires Verified(digest, records)
    ensures Verified(digest, records + [NextRecord(digest, records, e)])
  {
    var all := records + [NextRecord(digest, records, e)];
    forall i | 0 <= i < |all| ensures Chained(digest, all[i], LastHash(all[..i])) {
      assert all[..i] == records[..i];
      if i == |records| {
        assert records[..i] == records;
      }
    }
  }

  /** Every trail built by appending verifies, and numbers its records from one. */
  lemma {:induction false} BuiltTrailsVerify(digest: Digest, entries: seq<Entry>)
    ensures var records := Built(digest, entries);
            Verified(digest, records) && forall i :: 0 <= i < |records| ==> records[i].content.sequence == i + 1
  {
    if entries != [] {
      var before := entries[..|entries| - 1];
      BuiltTrailsVerify(digest, before);
      AppendKeepsVerified(digest, Built(digest, before), entries[|entries| - 1]);
    }
  }

  /** Every prefix of a verified trail verifies: cutting records off the end goes unnoticed unless
      the last hash is kept elsewhere. */
  lemma PrefixesVerify(digest: Digest, records: seq<Record>, n: nat)
    requires Verified(digest, records) && n <= |records|
    ensures Verified(digest, records[..n])
  {
    forall i | 0 <= i < n ensures Chained(digest, records[..n][i], LastHash(records[..n][..i])) {
      assert records[..n][..i] == records[..i];
    }
  }

  /** The last hash of a verified trail is the digest of its last content, never the genesis value. */
  lemma LastIsChained(digest: Digest, records: seq<Record>)
    requires Verified(digest, records) && records != []
    ensures var last := records[|records| - 1];
            && LastHash(records) == last.recordHash == Some(digest(last.content))
            && last.content.previousHash == LastHash(records[..|records| - 1])
  {
    assert Chained(digest, records[|records| - 1], LastHash(records[..|records| - 1]));
  }

  /** Two verified trails with the same last hash are the same trail: no record can be changed,
      moved, inserted or dropped without changing the last hash. */
  lemma {:induction false} LastHashFixesTheTrail(digest: Digest, a: seq<Record>, b: seq<Record>)
    requires (forall c, d :: digest(c) == digest(d) ==> c == d) && forall c :: digest(c) != Genesis()
    requires Verified(digest, a) && Verified(digest, b)
    requires LastHash(a) == LastHash(b)
    ensures a == b
    decreases |a|
  {
    hide Verified, LastHash, Genesis;
    if a == [] || b == [] {
      EmptyByItsHash(digest, a);
      EmptyByItsHash(digest, b);
    } else {
      var x, y := a[|a| - 1], b[|b| - 1];
      LastIsChained(digest, a);
      LastIsChained(digest, b);
      PrefixesVerify(digest, a, |a| - 1);
      PrefixesVerify(digest, b, |b| - 1);
      LastHashFixesTheTrail(digest, a[..|a| - 1], b[..|b| - 1]);
      assert a == a[..|a| - 1] + [x] && b == b[..|b| - 1] + [y];
    }
  }

  lemma EmptyByItsHash(digest: Digest, records: seq<Record>)
    requires (forall c :: digest(c) != Genesis()) && Verified(digest, records)
    ensures records == [] <==> LastHash(records) == Some(Genesis())
  {
    if records != [] {
      LastIsChained(digest, records);
    }
  }

  /** Against a last hash kept elsewhere, verification is exact: what verifies with that hash is the
      trail that was built, entry by entry. */
  lemma OnlyTheBuiltTrailPasses(digest: Digest, entries: seq<Entry>, records: seq<Record>)
    requires (forall c, d :: digest(c) == digest(d) ==> c == d) && forall c :: digest(c) != Genesis()
    ensures Verified(digest, records) && LastHash(records) == LastHash(Built(digest, entries)) <==> records == Built(digest, entries)
  {
    BuiltTrailsVerify(digest, entries);
    if Verified(digest, records) && LastHash(records) == LastHash(Built(digest, entries)) {
      LastHashFixesTheTrail(digest, records, Built(digest, entries));
    }
  }
}
