/** The ticket store (app.js:110-160): one persisted list of records that the submit
    handler appends to, `closeTicket` rewrites, clear-all erases and `render` lists newest
    first. Clock readings and generated ids are parameters. */
module Tickets {
  import opened Wrappers
  import opened Seqs
  import opened Text
  import opened Records
  import opened Sorting
  import CsvExport

  /** The generated part of a new ticket: `{id, status: "Open", created_at: now, updated_at: now}`. */
  function Generated(id: string, now: string): Record
  {
    [("id", id), ("status", "Open"), ("created_at", now), ("updated_at", now)]
  }

  /** `{ ...generated, ...Object.fromEntries(fd.entries()) }`: the form's fields are copied over
      the generated ones. */
  function NewTicket(id: string, now: string, form: seq<Entry>): Record
  {
    PutAll(Generated(id, now), FromEntries(form))
  }

  /** A new ticket holds the generated fields overlaid by the form's: a form field (its last
      value when repeated) wins over a generated one of the same name, so a field named
      `status` or `id` replaces the generated value. The generated keys come first. */
  lemma {:induction false} NewTicketSpec(id: string, now: string, form: seq<Entry>)
    ensures WellFormed(NewTicket(id, now, form))
    ensures KeysOf(NewTicket(id, now, form)) ==
              Dedup(["id", "status", "created_at", "updated_at"] + KeysOf(FromEntries(form)))
    ensures forall k :: Get(NewTicket(id, now, form), k) ==
              if LastValue(form, k).Some? then LastValue(form, k) else Get(Generated(id, now), k)
  {
    var g := Generated(id, now);
    var f := FromEntries(form);
    assert KeysOf(g) == ["id", "status", "created_at", "updated_at"];
    FromEntriesSpec(form);
    PutAllKeys(g, f);
    PutAllWellFormed(g, f);
    forall k ensures LastValue(f, k) == LastValue(form, k) {
      LastValueOfWellFormed(f, k);
    }
  }

  lemma {:induction false} GeneratedFields(id: string, now: string)
    ensures Get(Generated(id, now), "id") == Some(id)
    ensures Get(Generated(id, now), "status") == Some("Open")
    ensures Get(Generated(id, now), "created_at") == Some(now)
    ensures Get(Generated(id, now), "updated_at") == Some(now)
  {
    var g := Generated(id, now);
    assert "created_at"[0] != "id"[0] && "created_at"[0] != "status"[0];
    assert "updated_at"[0] != "id"[0] && "updated_at"[0] != "status"[0] && "updated_at"[0] != "created_at"[0];
    assert g[1..] == [("status", "Open"), ("created_at", now), ("updated_at", now)];
    assert g[1..][1..] == [("created_at", now), ("updated_at", now)];
    assert g[1..][1..][1..] == [("updated_at", now)];
    assert Get(g, "created_at") == Get(g[1..], "created_at") == Get(g[1..][1..], "created_at");
    assert Get(g, "updated_at") == Get(g[1..], "updated_at") == Get(g[1..][1..], "updated_at")
      == Get(g[1..][1..][1..], "updated_at");
  }

  /** Without form fields of those names, a new ticket is `Open` and was created and updated
      at the submission time. */
  lemma {:induction false} NewTicketDefaults(id: string, now: string, form: seq<Entry>)
    requires forall e :: e in form ==> e.0 != "id" && e.0 != "status" && e.0 != "created_at" && e.0 != "updated_at"
    ensures Get(NewTicket(id, now, form), "id") == Some(id)
    ensures Get(NewTicket(id, now, form), "status") == Some("Open")
    ensures Get(NewTicket(id, now, form), "created_at") == Some(now)
    ensures Get(NewTicket(id, now, form), "updated_at") == Some(now)
  {
    NewTicketSpec(id, now, form);
    GeneratedFields(id, now);
    NotInForm(form, "id");
    NotInForm(form, "status");
    NotInForm(form, "created_at");
    NotInForm(form, "updated_at");
  }

  lemma {:induction false} NotInForm(form: seq<Entry>, k: string)
    requires forall e :: e in form ==> e.0 != k
    ensures LastValue(form, k) == None
  {
    forall j | 0 <= j < |form| ensures KeysOf(form)[j] != k {
      assert form[j] in form;
    }
    LastValueAbsent(form, k);
  }

  /** `{...t, status: "Closed", closed_at: now}`. */
  function Closed(t: Record, now: string): Record
  {
    PutAll(t, [("status", "Closed"), ("closed_at", now)])
  }

  /** The list `closeTicket(id)` writes back: every record whose `id` is `id` closed. The
      `map` callback reads the clock for each record it closes, so `nows[i]` is the reading
      taken when it reaches record `i` (unused when that record is left alone). */
  function CloseAll(list: seq<Record>, id: string, nows: seq<string>): seq<Record>
    requires |nows| == |list|
  {
    seq(|list|, i requires 0 <= i < |list| =>
      if Get(list[i], "id") == Some(id) then Closed(list[i], nows[i]) else list[i])
  }

  /** The two assignments of a close, and the value each key ends up with. */
  lemma CloseEntries(now: string)
    ensures var es := [("status", "Closed"), ("closed_at", now)];
      && LastValue(es, "status") == Some("Closed")
      && LastValue(es, "closed_at") == Some(now)
      && forall k :: k != "status" && k != "closed_at" ==> LastValue(es, k) == None
  {
    var es := [("status", "Closed"), ("closed_at", now)];
    assert es[..1] == [("status", "Closed")] && es[..1][..0] == [];
    assert "status"[0] != "closed_at"[0];
    assert LastValue(es, "status") == LastValue(es[..1], "status");
    forall k | k != "status" && k != "closed_at" ensures LastValue(es, k) == None {
      assert LastValue(es, k) == LastValue(es[..1], k) == LastValue(es[..1][..0], k);
    }
  }

  /** Closing sets `status` and `closed_at` and keeps every other field, `updated_at`
      included. */
  lemma {:induction false} ClosedSpec(t: Record, now: string)
    ensures Get(Closed(t, now), "status") == Some("Closed")
    ensures Get(Closed(t, now), "closed_at") == Some(now)
    ensures forall k :: k != "status" && k != "closed_at" ==> Get(Closed(t, now), k) == Get(t, k)
  {
    CloseEntries(now);
  }

  /** Closing keeps `status` in its place among the keys and puts a new `closed_at` last. */
  lemma {:induction false} ClosedKeys(t: Record, now: string)
    ensures KeysOf(Closed(t, now)) ==
              var ks := if "status" in KeysOf(t) then KeysOf(t) else KeysOf(t) + ["status"];
              if "closed_at" in ks then ks else ks + ["closed_at"]
  {
    var es := [("status", "Closed"), ("closed_at", now)];
    assert es[..1] == [("status", "Closed")] && es[..1][..0] == [];
    assert "status"[0] != "closed_at"[0];
    var once := Put(t, "status", "Closed");
    assert PutAll(t, es[..1]) == once by {
      assert PutAll(t, es[..1][..0]) == t;
    }
    assert Closed(t, now) == Put(once, "closed_at", now);
  }

  /** `closeTicket` keeps the length and order of the list, closes exactly the records with
      that id, and leaves the others as they were. */
  lemma {:induction false} CloseAllSpec(list: seq<Record>, id: string, nows: seq<string>)
    requires |nows| == |list|
    ensures |CloseAll(list, id, nows)| == |list|
    ensures forall i :: 0 <= i < |list| && Get(list[i], "id") == Some(id) ==>
              && Get(CloseAll(list, id, nows)[i], "status") == Some("Closed")
              && Get(CloseAll(list, id, nows)[i], "closed_at") == Some(nows[i])
              && (forall k :: k != "status" && k != "closed_at" ==>
                    Get(CloseAll(list, id, nows)[i], k) == Get(list[i], k))
    ensures forall i :: 0 <= i < |list| && Get(list[i], "id") != Some(id) ==>
              CloseAll(list, id, nows)[i] == list[i]
  {
    forall i | 0 <= i < |list| && Get(list[i], "id") == Some(id) {
      ClosedSpec(list[i], nows[i]);
    }
  }

  /** Closing an id that no record carries leaves the list identical. */
  lemma {:induction false} CloseUnknownId(list: seq<Record>, id: string, nows: seq<string>)
    requires |nows| == |list|
    requires forall i :: 0 <= i < |list| ==> Get(list[i], "id") != Some(id)
    ensures CloseAll(list, id, nows) == list
  {
  }

  /** `t.created_at || ""`. */
  function CreatedAt(t: Record): string
  {
    Lookup(t, "created_at")
  }

  /** The comparator of `render`: `(b.created_at || "").localeCompare(a.created_at || "")`
      is negative when `a` was created later. */
  function NewerFirst(a: Record, b: Record): bool
  {
    Less(CreatedAt(b), CreatedAt(a))
  }

  lemma {:induction false} NewerFirstIsOrder()
    ensures StrictWeakOrder(NewerFirst)
  {
    forall a, b | NewerFirst(a, b) ensures !NewerFirst(b, a) {
      LessAsymmetric(CreatedAt(b), CreatedAt(a));
    }
    forall a, b, c | NewerFirst(a, c) ensures NewerFirst(a, b) || NewerFirst(b, c) {
      var ka, kb, kc := CreatedAt(a), CreatedAt(b), CreatedAt(c);
      if kb != ka && !Less(kb, ka) {
        LessTotal(ka, kb);
        LessTransitive(kc, ka, kb);
      }
    }
  }

  /** Records the comparator cannot tell apart are those created at the same time. */
  lemma {:induction false} NewerFirstPeers(a: Record, b: Record)
    ensures Equivalent(NewerFirst, a, b) <==> CreatedAt(a) == CreatedAt(b)
  {
    if CreatedAt(a) != CreatedAt(b) {
      LessTotal(CreatedAt(a), CreatedAt(b));
    } else {
      LessIrreflexive(CreatedAt(a));
    }
  }

  /** `getTickets().sort(...)` in `render`. */
  function Listing(list: seq<Record>): seq<Record>
  {
    Sort(NewerFirst, list)
  }

  /** The rendered list is a permutation of the stored list, newest `created_at` first, with
      records created at the same time in stored order and a missing `created_at` (read as
      `""`) after every other. */
  lemma {:induction false} ListingSpec(list: seq<Record>)
    ensures multiset(Listing(list)) == multiset(list)
    ensures forall i, j :: 0 <= i < j < |Listing(list)| ==>
              !Less(CreatedAt(Listing(list)[i]), CreatedAt(Listing(list)[j]))
    ensures forall t :: Peers(NewerFirst, Listing(list), t) == Peers(NewerFirst, list, t)
    ensures forall i, j :: 0 <= i < j < |Listing(list)| && Get(Listing(list)[i], "created_at") == None ==>
              CreatedAt(Listing(list)[j]) == ""
  {
    NewerFirstIsOrder();
    SortSorted(NewerFirst, list);
    forall t ensures Peers(NewerFirst, Listing(list), t) == Peers(NewerFirst, list, t) {
      SortStable(NewerFirst, list, t);
    }
    forall i, j | 0 <= i < j < |Listing(list)| && Get(Listing(list)[i], "created_at") == None
      ensures CreatedAt(Listing(list)[j]) == ""
    {
      var kj := CreatedAt(Listing(list)[j]);
      if kj != "" {
        LessTotal("", kj);
      }
    }
  }

  /** The persisted ticket list. An absent storage entry reads as the empty list; storage
      access is synchronous and whole-list, so the list is a field that each operation reads,
      changes and writes back. */
  class TicketStore {
    var tickets: seq<Record>

    ghost predicate Valid()
      reads this
    {
      forall i :: 0 <= i < |tickets| ==> WellFormed(tickets[i])
    }

    /** `getTickets()` on whatever the storage entry holds (`|| "[]"` when absent). */
    constructor (stored: Option<seq<Record>>)
      requires stored.Some? ==> forall i :: 0 <= i < |stored.value| ==> WellFormed(stored.value[i])
      ensures Valid()
      ensures tickets == stored.GetOr([])
    {
      tickets := stored.GetOr([]);
    }

    /** The submit handler: push the new ticket and write the list back. */
    method Submit(id: string, now: string, form: seq<Entry>)
      requires Valid()
      modifies this
      ensures Valid()
      ensures tickets == old(tickets) + [NewTicket(id, now, form)]
    {
      NewTicketSpec(id, now, form);
      var list := tickets;
      list := list + [NewTicket(id, now, form)];
      tickets := list;
    }

    /** `closeTicket(id)`: map over the list and write it back; `nows` holds the clock
        reading taken at each record. */
    method CloseTicket(id: string, nows: seq<string>)
      requires Valid() && |nows| == |tickets|
      modifies this
      ensures Valid()
      ensures tickets == CloseAll(old(tickets), id, nows)
    {
      var list := CloseAll(tickets, id, nows);
      forall i | 0 <= i < |list| ensures WellFormed(list[i]) {
        PutAllWellFormed(tickets[i], [("status", "Closed"), ("closed_at", nows[i])]);
      }
      tickets := list;
    }

    /** Clear-all, once confirmed: `localStorage.removeItem`. */
    method ClearAll()
      modifies this
      ensures Valid()
      ensures tickets == []
    {
      tickets := [];
    }

    /** What `render` lists: the stored tickets, rearranged; in a valid store every listed
        ticket has distinct keys. */
    function Rendered(): (r: seq<Record>)
      reads this
      ensures multiset(r) == multiset(tickets)
      ensures Valid() ==> forall i :: 0 <= i < |r| ==> WellFormed(r[i])
    {
      ListingSpec(tickets);
      var r := Listing(tickets);
      assert forall i :: 0 <= i < |r| ==> r[i] in multiset(tickets);
      r
    }

    /** What the export button produces: nothing when the store is empty. */
    function Exported(): (out: Option<string>)
      reads this
      ensures out.None? <==> |tickets| == 0
    {
      CsvExport.ExportCsv(tickets)
    }
  }
}
