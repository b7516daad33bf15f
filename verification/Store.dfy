/** The database: five tables and the statements that read and change them. */
module Store {
  import opened Core
  import opened DecimalText
  import opened Attestations
  import opened Aggregation
  import opened Comparison
  import opened Tables

  class Database {
    var local: seq<Attestation>
    var remote: seq<PoiMessage>
    var results: map<string, ResultRow>
    var notifications: seq<Notification>
    var upgrades: map<string, UpgradeRow>

    function Contents(): Tables
      reads this
    {
      Tables(local, remote, results, notifications, upgrades)
    }

    // A fresh database after the migrations
    constructor ()
      ensures Contents() == EMPTY
    {
      local, remote, results, notifications, upgrades := [], [], map[], [], map[];
    }

    method InsertLocalAttestation(a: Attestation) returns (r: Result<Attestation, DatabaseError>)
      modifies this`local
      ensures r == if exists b :: b in old(local) && b.blockNumber == a.blockNumber && b.identifier == a.identifier
                              && b.ppoi == a.ppoi
                   then Err(UniqueViolation) else Ok(a)
      ensures local == if r.Ok? then old(local) + [a] else old(local)
    {
      if Clashes(local, a) {
        return Err(UniqueViolation);
      }
      local := local + [a];
      return Ok(a);
    }

    method GetLocalAttestation(id: string, block: u64) returns (r: Option<Attestation>)
      ensures r == LocalAt(local, id, block)
    {
      r := LocalAt(local, id, block);
    }

    method GetLocalAttestationsByIdentifier(id: string) returns (full: seq<Attestation>)
      ensures full == LocalRows(local, id)
    {
      full := [];
      for i := 0 to |local|
        invariant full == LocalRows(local[..i], id)
      {
        PrefixSnoc(local, i);
        FilterSnoc((a: Attestation) => a.identifier == id, local[..i], local[i]);
        if local[i].identifier == id {
          full := full + [local[i]];
        }
      }
      assert local[..|local|] == local;
    }

    method DeleteOutdatedLocalAttestations(id: string, block: u64) returns (affected: nat)
      modifies this`local
      ensures local == KeepLocal(old(local), id, block)
      ensures affected == |old(local)| - |local|
    {
      var kept := KeepLocal(local, id, block);
      affected := |local| - |kept|;
      local := kept;
    }

    method InsertRemotePpoiMessage(m: PoiMessage)
      modifies this`remote
      ensures remote == old(remote) + [Stored(m)]
    {
      remote := remote + [Stored(m)];
    }

    method GetRemotePpoiMessagesByIdentifier(id: string) returns (messages: seq<PoiMessage>)
      ensures messages == RemoteRows(remote, id)
    {
      messages := RemoteRows(remote, id);
    }

    method CleanRemotePpoiMessages(id: string, block: u64) returns (affected: nat)
      modifies this`remote
      ensures remote == KeepRemote(old(remote), id, block)
      ensures affected == |old(remote)| - |remote|
    {
      var kept := KeepRemote(remote, id, block);
      affected := |remote| - |kept|;
      remote := kept;
    }

    // The upsert touches one row whether or not there was one.
    method SaveComparisonResult(r: ComparisonResult) returns (affected: nat)
      modifies this`results
      ensures results == old(results)[r.deployment := RowOf(r)] && affected == 1
      ensures r.resultType != BuildFailed ==> ReadResult(results, r.deployment) == Ok(Some(r))
      ensures forall d :: d != r.deployment ==> ReadResult(results, d) == ReadResult(old(results), d)
    {
      SavedIsRead(results, r, r.deployment);
      results := results[r.deployment := RowOf(r)];
      affected := 1;
    }

    method GetComparisonResultByDeployment(deployment: string)
      returns (r: Result<Option<ComparisonResult>, DatabaseError>)
      ensures r == ReadResult(results, deployment)
    {
      if deployment !in results {
        return Ok(None);
      }
      var row := results[deployment];
      var t := ParseType(row.resultType);
      if t.None? {
        return Err(ParseError);
      }
      return Ok(Some(ComparisonResult(deployment, row.blockNumber, t.value, row.localAttestation, row.attestations)));
    }

    // A plain INSERT: a deployment that already has a notification is refused.
    method CreateNotification(n: Notification) returns (r: Result<Notification, DatabaseError>)
      modifies this`notifications
      ensures r == if exists m :: m in old(notifications) && m.deployment == n.deployment
                   then Err(UniqueViolation) else Ok(n)
      ensures notifications == if r.Ok? then old(notifications) + [n] else old(notifications)
    {
      if Pending(notifications, n.deployment) {
        return Err(UniqueViolation);
      }
      notifications := notifications + [n];
      return Ok(n);
    }

    method ClearAllNotifications()
      modifies this`notifications
      ensures notifications == []
    {
      notifications := [];
    }

    method SaveUpgradeIntentMessage(subgraph: string, row: UpgradeRow)
      modifies this`upgrades
      ensures upgrades == old(upgrades)[subgraph := row]
    {
      upgrades := upgrades[subgraph := row];
    }

    method RecentUpgrade(subgraph: string, nonce: u64, threshold: u64) returns (recent: bool)
      ensures recent <==> RecentlyUpgraded(upgrades, subgraph, nonce, threshold)
    {
      var nonceThreshold := Render(WrappingSub(nonce, threshold));
      recent := subgraph in upgrades && !TextLe(Render(upgrades[subgraph].nonce), nonceThreshold);
    }
  }
}
