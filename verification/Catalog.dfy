/** The provider model catalog: layered compilation, the reference database and the live cache. */
module Catalog {
  import opened Wrappers
  import opened Search
  import opened Text
  import opened OrderedMap

  datatype Source = Bundled | Live(baseUrlFingerprint: string, fetchedAt: nat) | UserOverride

  datatype Limit = Limit(context: Option<nat>, output: Option<nat>)

  datatype Modalities = Modalities(input: seq<string>, output: seq<string>)

  /** A catalog row; `facts` stands for the fields that are only carried along. */
  datatype Offering = Offering(
    provider: string,
    wireModelId: string,
    canonicalModel: Option<string>,
    family: Option<string>,
    limit: Option<Limit>,
    modalities: Option<Modalities>,
    facts: seq<string>,
    source: Source)
  {
    function MergeKey(): Key { [provider, wireModelId] }
  }

  // ---- Layers.

  function InsertAll(m: seq<Entry<Offering>>, rows: seq<Offering>): seq<Entry<Offering>>
    decreases |rows|
  {
    if rows == [] then m else InsertAll(Insert(m, rows[0].MergeKey(), rows[0]), rows[1..])
  }

  function Merged(rows: seq<Offering>): seq<Entry<Offering>> { InsertAll([], rows) }

  function Compiled(rows: seq<Offering>): seq<Offering> { Values(Merged(rows)) }

  method Compile(bundled: seq<Offering>, live: seq<Offering>, overrides: seq<Offering>)
    returns (snapshot: seq<Offering>)
    ensures snapshot == Compiled(bundled + live + overrides)
  {
    var merged: seq<Entry<Offering>> := [];
    var rows := bundled + live + overrides;
    for i := 0 to |rows|
      invariant InsertAll(merged, rows[i..]) == Merged(rows)
    {
      assert rows[i..][1..] == rows[i + 1..];
      merged := Insert(merged, rows[i].MergeKey(), rows[i]);
    }
    snapshot := Values(merged);
  }

  /** The last row with an identity, scanning from the end. */
  function LastRow(rows: seq<Offering>, k: Key): (r: Option<Offering>)
    ensures r.Some? ==> r.value in rows && r.value.MergeKey() == k
    ensures r.None? <==> forall row :: row in rows ==> row.MergeKey() != k
  {
    if rows == [] then None
    else if rows[|rows| - 1].MergeKey() == k then Some(rows[|rows| - 1])
    else LastRow(rows[..|rows| - 1], k)
  }

  lemma {:induction false} LastRowLayers(a: seq<Offering>, b: seq<Offering>, k: Key)
    ensures LastRow(a + b, k) == if LastRow(b, k).Some? then LastRow(b, k) else LastRow(a, k)
    decreases |b|
  {
    if b == [] {
      assert a + b == a;
    } else {
      assert (a + b)[..|a + b| - 1] == a + b[..|b| - 1];
      LastRowLayers(a, b[..|b| - 1], k);
    }
  }

  lemma {:induction false} InsertAllSorted(m: seq<Entry<Offering>>, rows: seq<Offering>)
    requires Sorted(m)
    ensures Sorted(InsertAll(m, rows))
    decreases |rows|
  {
    if rows != [] {
      InsertSorted(m, rows[0].MergeKey(), rows[0]);
      InsertAllSorted(Insert(m, rows[0].MergeKey(), rows[0]), rows[1..]);
    }
  }

  lemma {:induction false} InsertAllGet(m: seq<Entry<Offering>>, rows: seq<Offering>, k: Key)
    ensures Get(InsertAll(m, rows), k) == if LastRow(rows, k).Some? then LastRow(rows, k) else Get(m, k)
    decreases |rows|
  {
    if rows != [] {
      var row := rows[0];
      GetInsert(m, row.MergeKey(), row, k);
      InsertAllGet(Insert(m, row.MergeKey(), row), rows[1..], k);
      assert rows == [row] + rows[1..];
      LastRowLayers([row], rows[1..], k);
      assert [row][..0] == [];
    }
  }

  /** Merged entries are filed under their own identity. */
  predicate Keyed(m: seq<Entry<Offering>>) { forall i :: 0 <= i < |m| ==> m[i].key == m[i].value.MergeKey() }

  lemma {:induction false} InsertAllKeyed(m: seq<Entry<Offering>>, rows: seq<Offering>)
    requires Keyed(m)
    ensures Keyed(InsertAll(m, rows))
    decreases |rows|
  {
    if rows != [] {
      var n := Insert(m, rows[0].MergeKey(), rows[0]);
      forall i | 0 <= i < |n| ensures n[i].key == n[i].value.MergeKey() {
        InsertMembers(m, rows[0].MergeKey(), rows[0], n[i]);
      }
      InsertAllKeyed(n, rows[1..]);
    }
  }

  predicate StrictlySorted(rows: seq<Offering>) {
    forall i, j :: 0 <= i < j < |rows| ==> KeyLess(rows[i].MergeKey(), rows[j].MergeKey())
  }

  /** The snapshot is strictly sorted by identity, and a row is in it exactly when it is the last of its identity. */
  lemma CompiledExact(rows: seq<Offering>, row: Offering)
    ensures StrictlySorted(Compiled(rows))
    ensures row in Compiled(rows) <==> LastRow(rows, row.MergeKey()) == Some(row)
  {
    var m := Merged(rows);
    InsertAllSorted([], rows);
    InsertAllKeyed([], rows);
    InsertAllGet([], rows, row.MergeKey());
    GetMember(m, Entry(row.MergeKey(), row));
    if row in Compiled(rows) {
      var i :| 0 <= i < |m| && Values(m)[i] == row;
      assert m[i] == Entry(row.MergeKey(), row);
    }
    if Entry(row.MergeKey(), row) in m {
      var i :| 0 <= i < |m| && m[i] == Entry(row.MergeKey(), row);
      assert Values(m)[i] == row;
    }
  }

  /** Overrides win over live rows, live rows over bundled ones, and within a layer the last row wins. */
  lemma LayerPrecedence(bundled: seq<Offering>, live: seq<Offering>, overrides: seq<Offering>, k: Key)
    ensures LastRow(bundled + live + overrides, k)
         == if LastRow(overrides, k).Some? then LastRow(overrides, k)
            else if LastRow(live, k).Some? then LastRow(live, k)
            else LastRow(bundled, k)
  {
    LastRowLayers(bundled + live, overrides, k);
    LastRowLayers(bundled, live, k);
  }

  /** No refresh and no override can lose a bundled identity. */
  lemma BundledIdentityKept(bundled: seq<Offering>, live: seq<Offering>, overrides: seq<Offering>, row: Offering)
    requires row in bundled
    ensures exists kept :: kept in Compiled(bundled + live + overrides) && kept.MergeKey() == row.MergeKey()
  {
    LayerPrecedence(bundled, live, overrides, row.MergeKey());
    assert row.MergeKey() == row.MergeKey();
    var kept := LastRow(bundled + live + overrides, row.MergeKey()).value;
    CompiledExact(bundled + live + overrides, kept);
  }

  /** A snapshot recompiled, from any one layer, is itself. */
  lemma CompileFixedPoint(rows: seq<Offering>)
    ensures Compiled(Compiled(rows)) == Compiled(rows)
  {
    var m, snapshot := Merged(rows), Compiled(rows);
    InsertAllSorted([], rows);
    InsertAllKeyed([], rows);
    InsertAllSorted([], snapshot);
    forall k ensures Get(Merged(snapshot), k) == Get(m, k) {
      InsertAllGet([], snapshot, k);
      SnapshotLookup(rows, k);
    }
    Extensional(Merged(snapshot), m);
  }

  lemma SnapshotLookup(rows: seq<Offering>, k: Key)
    ensures LastRow(Compiled(rows), k) == Get(Merged(rows), k) == LastRow(rows, k)
  {
    InsertAllGet([], rows, k);
    match LastRow(Compiled(rows), k) {
      case Some(row) => CompiledExact(rows, row);
      case None => if LastRow(rows, k).Some? { CompiledExact(rows, LastRow(rows, k).value); }
    }
  }

  // ---- The reference database.

  datatype Modality = TextOnly | Multimodal | Unknown

  /** What one stated modality says. */
  datatype Claim = Nothing | Textual | Other

  function ClaimOf(modality: string): Claim {
    var trimmed := Trim(modality);
    if trimmed == "" then Nothing else if EqIgnoreCase(trimmed, "text") then Textual else Other
  }

  function Claims(stated: seq<string>): (r: seq<Claim>)
    ensures |r| == |stated| && forall i :: 0 <= i < |r| ==> r[i] == ClaimOf(stated[i])
  {
    seq(|stated|, i requires 0 <= i < |stated| => ClaimOf(stated[i]))
  }

  /** Multimodal when anything other than text is stated, text when only text is, unknown when nothing is. */
  function Verdict(claims: seq<Claim>): Modality {
    if Other in claims then Multimodal else if Textual in claims then TextOnly else Unknown
  }

  function ModalityOf(modalities: Option<Modalities>): Modality {
    match modalities case None => Unknown case Some(ms) => Verdict(Claims(ms.input + ms.output))
  }

  method FromModalities(modalities: Option<Modalities>) returns (m: Modality)
    ensures m == ModalityOf(modalities)
  {
    if modalities.None? { return Unknown; }
    var stated := modalities.value.input + modalities.value.output;
    ghost var claims := Claims(stated);
    var sawAny := false;
    for i := 0 to |stated|
      invariant sawAny <==> Textual in claims[..i]
      invariant Other !in claims[..i]
    {
      assert claims[..i + 1] == claims[..i] + [claims[i]];
      match ClaimOf(stated[i]) {
        case Nothing => continue;
        case Textual => sawAny := true;
        case Other => return Multimodal;
      }
    }
    assert claims[..|stated|] == claims;
    m := if sawAny then TextOnly else Unknown;
  }

  datatype Card = Card(
    provider: string,
    modelId: string,
    canonicalModel: Option<string>,
    family: Option<string>,
    contextWindow: Option<nat>,
    maxOutput: Option<nat>,
    modality: Modality,
    source: Source)

  function CardOf(row: Offering): Card {
    Card(row.provider, row.wireModelId, row.canonicalModel, row.family,
         if row.limit.Some? then row.limit.value.context else None,
         if row.limit.Some? then row.limit.value.output else None,
         ModalityOf(row.modalities), row.source)
  }

  function InsertCards(m: seq<Entry<Card>>, rows: seq<Offering>): seq<Entry<Card>>
    decreases |rows|
  {
    if rows == [] then m
    else
      var card := CardOf(rows[0]);
      InsertCards(Insert(m, [card.provider, card.modelId], card), rows[1..])
  }

  function Cards(rows: seq<Offering>): seq<Card> { Values(InsertCards([], rows)) }

  method FromOfferings(offerings: seq<Offering>) returns (cards: seq<Card>)
    ensures cards == Cards(offerings)
  {
    var byIdentity: seq<Entry<Card>> := [];
    for i := 0 to |offerings|
      invariant InsertCards(byIdentity, offerings[i..]) == InsertCards([], offerings)
    {
      assert offerings[i..][1..] == offerings[i + 1..];
      var card := CardOf(offerings[i]);
      byIdentity := Insert(byIdentity, [card.provider, card.modelId], card);
    }
    cards := Values(byIdentity);
  }

  function FindCard(cards: seq<Card>, provider: string, modelId: string): Option<Card> {
    if cards == [] then None
    else if cards[0].provider == provider && cards[0].modelId == modelId then Some(cards[0])
    else FindCard(cards[1..], provider, modelId)
  }

  predicate CardsKeyed(m: seq<Entry<Card>>) {
    forall i :: 0 <= i < |m| ==> m[i].key == [m[i].value.provider, m[i].value.modelId]
  }

  lemma {:induction false} InsertCardsKeyed(m: seq<Entry<Card>>, rows: seq<Offering>)
    requires CardsKeyed(m)
    ensures CardsKeyed(InsertCards(m, rows))
    decreases |rows|
  {
    if rows != [] {
      var card := CardOf(rows[0]);
      var n := Insert(m, [card.provider, card.modelId], card);
      forall i | 0 <= i < |n| ensures n[i].key == [n[i].value.provider, n[i].value.modelId] {
        InsertMembers(m, [card.provider, card.modelId], card, n[i]);
      }
      InsertCardsKeyed(n, rows[1..]);
    }
  }

  lemma {:induction false} FindIsGet(m: seq<Entry<Card>>, provider: string, modelId: string)
    requires CardsKeyed(m)
    ensures FindCard(Values(m), provider, modelId) == Get(m, [provider, modelId])
  {
    if m != [] {
      assert Values(m)[1..] == Values(m[1..]);
      var a, b := m[0].key, [provider, modelId];
      assert a == b <==> a[0] == b[0] && a[1] == b[1];
      FindIsGet(m[1..], provider, modelId);
    }
  }

  /** A modality is stated when something is left of it once trimmed. */
  predicate StatesText(stated: string) { Lower(Trim(stated)) == "text" }

  predicate StatesOther(stated: string) { Trim(stated) != "" && Lower(Trim(stated)) != "text" }

  /** Anything but text makes a model multimodal, only text makes it a text model, nothing leaves it unknown. */
  lemma ModalityExact(ms: Modalities)
    ensures var (m, stated) := (ModalityOf(Some(ms)), ms.input + ms.output);
            && (m.Multimodal? <==> exists i :: 0 <= i < |stated| && StatesOther(stated[i]))
            && (m.Unknown? <==> forall i :: 0 <= i < |stated| ==> !StatesOther(stated[i]) && !StatesText(stated[i]))
    ensures ModalityOf(None) == Unknown
  {
    var stated := ms.input + ms.output;
    forall i | 0 <= i < |stated| ensures ClaimOf(stated[i]).Other? <==> StatesOther(stated[i])
                                 ensures ClaimOf(stated[i]).Textual? <==> StatesText(stated[i]) {
      ClaimExact(stated[i]);
    }
    VerdictExact(Claims(stated));
  }

  lemma ClaimExact(stated: string)
    ensures ClaimOf(stated).Other? <==> StatesOther(stated)
    ensures ClaimOf(stated).Textual? <==> StatesText(stated)
  {
    assert Lower("text") == "text";
  }

  lemma VerdictExact(claims: seq<Claim>)
    ensures Verdict(claims).Multimodal? <==> exists i :: 0 <= i < |claims| && claims[i].Other?
    ensures Verdict(claims).Unknown? <==> forall i :: 0 <= i < |claims| ==> !claims[i].Other? && !claims[i].Textual?
  {
  }

  function Project(row: Option<Offering>): Option<Card> {
    if row.Some? then Some(CardOf(row.value)) else None
  }

  lemma CardKey(row: Offering)
    ensures [CardOf(row).provider, CardOf(row).modelId] == row.MergeKey()
  {
  }

  lemma {:induction false} InsertCardsGet(m: seq<Entry<Card>>, rows: seq<Offering>, k: Key)
    ensures Get(InsertCards(m, rows), k) == if LastRow(rows, k).Some? then Project(LastRow(rows, k)) else Get(m, k)
    decreases |rows|
  {
    if rows != [] {
      var (row, card) := (rows[0], CardOf(rows[0]));
      CardKey(row);
      GetInsert(m, row.MergeKey(), card, k);
      InsertCardsGet(Insert(m, row.MergeKey(), card), rows[1..], k);
      assert rows == [row] + rows[1..];
      LastRowLayers([row], rows[1..], k);
      assert [row][..0] == [];
    }
  }

  /** The card states the row's own facts, and leaves unknown what the row does not state. */
  predicate States(card: Card, row: Offering) {
    && card.provider == row.provider && card.modelId == row.wireModelId
    && card.canonicalModel == row.canonicalModel && card.family == row.family && card.source == row.source
    && (row.limit.None? ==> card.contextWindow.None? && card.maxOutput.None?)
    && (row.limit.Some? ==> card.contextWindow == row.limit.value.context && card.maxOutput == row.limit.value.output)
    && card.modality == ModalityOf(row.modalities)
  }

  /** A card looked up in the database built from a snapshot states the facts of the identity's last row. */
  lemma FindExact(rows: seq<Offering>, provider: string, modelId: string)
    ensures match (FindCard(Cards(Compiled(rows)), provider, modelId), LastRow(rows, [provider, modelId]))
            case (Some(card), Some(row)) => States(card, row)
            case (None, None) => true
            case _ => false
  {
    InsertCardsKeyed([], Compiled(rows));
    FindIsGet(InsertCards([], Compiled(rows)), provider, modelId);
    InsertCardsGet([], Compiled(rows), [provider, modelId]);
    SnapshotLookup(rows, [provider, modelId]);
  }
}
