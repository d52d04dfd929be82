/**
 * The FAQ store behind the `/edit` and `/delete` handlers of main.py, with the
 * JSON files replaced by their loaded values: `all.json` is an ordered list of
 * summaries, `faq.json` a map from id to the full record.
 */
module FaqStore {
  import opened Wrappers
  import opened Strings
  import opened Seqs

  /** A `titles` or `contents` object: language code to text (None for JSON null). */
  type Dict = map<string, Option<string>>

  datatype Summary = Summary(id: string, titles: Dict, tags: seq<string>)
  datatype Record = Record(id: string, titles: Dict, contents: Dict, tags: seq<string>)
  datatype Store = Store(all: seq<Summary>, faq: map<string, Record>)

  /** The JSON body of an edit request; None for a member that is missing. */
  datatype EditRequest = EditRequest(id: Option<string>, titles: Option<Dict>, contents: Option<Dict>, tags: Option<seq<string>>)

  /** The request members as `edit` reads them: the id stripped, missing members defaulted. */
  datatype Submission = Submission(id: string, titles: Dict, contents: Dict, tags: seq<string>)

  /** The HTTP status of a handler and the store it leaves behind. */
  datatype Reply = Reply(status: int, store: Store)

  // ---------------------------------------------------------------------------
  // load

  /** What `json.load` gives for one of the two files. */
  datatype Json = JList(items: seq<Summary>) | JObject(entries: map<string, Record>)

  /**
   * `load(fname)`: the parsed file, or when it is missing or not valid JSON
   * (`read` is None) an empty list for all.json and an empty object otherwise.
   */
  function Load(fname: string, read: Option<Json>): (r: Json)
    ensures read.Some? ==> r == read.value
    ensures read.None? ==> (r.JList? <==> fname == "all.json")
    ensures read.None? ==> r == JList([]) || r == JObject(map[])
  {
    match read
    case Some(v) => v
    case None => if fname == "all.json" then JList([]) else JObject(map[])
  }

  /**
   * The store a handler starts from: `load('all.json')` and `load('faq.json')`,
   * where a read of None stands for a file that is missing or not valid JSON.
   */
  function LoadStore(allRead: Option<seq<Summary>>, faqRead: Option<map<string, Record>>): (s: Store)
    ensures allRead.None? ==> s.all == []
    ensures allRead.Some? ==> s.all == allRead.value
    ensures faqRead.None? ==> s.faq == map[]
    ensures faqRead.Some? ==> s.faq == faqRead.value
  {
    var all := Load("all.json", if allRead.Some? then Some(JList(allRead.value)) else None);
    var faq := Load("faq.json", if faqRead.Some? then Some(JObject(faqRead.value)) else None);
    Store(if all.JList? then all.items else [], if faq.JObject? then faq.entries else map[])
  }

  // ---------------------------------------------------------------------------
  // Language fallback

  /** `d.get(k)`: None both for a missing key and for a null value. */
  function Get(d: Dict, k: string): Option<string> {
    if k in d then d[k] else None
  }

  /** Python truthiness of a JSON string member: present, not null, not empty. */
  predicate Truthy(v: Option<string>) {
    v.Some? && v.value != ""
  }

  function FillLang(d: Dict, lang: string): Dict {
    if Truthy(Get(d, lang)) then d else d[lang := Get(d, "ru")]
  }

  /** The `for lang in ['en', 'ro']` loop: a missing or empty en/ro value takes the ru value. */
  function Fill(d: Dict): (r: Dict)
    ensures r.Keys == d.Keys + {"en", "ro"}
    ensures forall lang :: lang == "en" || lang == "ro" ==>
      r[lang] == if Truthy(Get(d, lang)) then d[lang] else Get(d, "ru")
    ensures forall k :: k in d && k != "en" && k != "ro" ==> r[k] == d[k]
    ensures Truthy(Get(d, "ru")) ==> Truthy(Get(r, "ru")) && Truthy(Get(r, "en")) && Truthy(Get(r, "ro"))
  {
    FillLang(FillLang(d, "en"), "ro")
  }

  /** Filling is idempotent: a second pass finds nothing more to fill. */
  lemma FillIdempotent(d: Dict)
    ensures Fill(Fill(d)) == Fill(d)
  {
    var f := Fill(d);
    var g := Fill(f);
    assert g.Keys == f.Keys;
    forall k | k in g
      ensures g[k] == f[k]
    {
      if k == "en" || k == "ro" {
        assert Get(f, "ru") == Get(d, "ru");
      }
    }
  }

  // ---------------------------------------------------------------------------
  // The summary list

  predicate HasId(items: seq<Summary>, id: string) {
    exists i :: 0 <= i < |items| && items[i].id == id
  }

  /** The first summary with the same id is replaced in place; with none, `x` is appended. */
  function Upsert(items: seq<Summary>, x: Summary): (r: seq<Summary>)
    ensures |r| == if HasId(items, x.id) then |items| else |items| + 1
    ensures x in r
  {
    if items == [] then [x]
    else if items[0].id == x.id then [x] + items[1..]
    else
      HasIdTail(items, x.id);
      [items[0]] + Upsert(items[1..], x)
  }

  lemma HasIdTail(items: seq<Summary>, id: string)
    requires items != [] && items[0].id != id
    ensures HasId(items, id) <==> HasId(items[1..], id)
  {
    if HasId(items, id) {
      var i :| 0 <= i < |items| && items[i].id == id;
      assert items[1..][i - 1].id == id;
    }
    if HasId(items[1..], id) {
      var i :| 0 <= i < |items[1..]| && items[1..][i].id == id;
      assert items[i + 1].id == id;
    }
  }

  /** `k` is the position of the first summary with id `id`. */
  predicate FirstWithId(items: seq<Summary>, id: string, k: int) {
    0 <= k < |items| && items[k].id == id && forall j :: 0 <= j < k ==> items[j].id != id
  }

  /** Upsert replaces exactly the first summary with that id, or appends at the end. */
  lemma {:induction false} UpsertSpec(items: seq<Summary>, x: Summary)
    ensures HasId(items, x.id) ==> exists k :: FirstWithId(items, x.id, k) && Upsert(items, x) == items[k := x]
    ensures !HasId(items, x.id) ==> Upsert(items, x) == items + [x]
  {
    if items == [] {
    } else if items[0].id == x.id {
      assert FirstWithId(items, x.id, 0) && Upsert(items, x) == items[0 := x];
    } else {
      var tail := items[1..];
      UpsertSpec(tail, x);
      HasIdTail(items, x.id);
      if HasId(tail, x.id) {
        var k :| FirstWithId(tail, x.id, k) && Upsert(tail, x) == tail[k := x];
        UpsertShift(items, x, k);
      } else {
        assert [items[0]] + (tail + [x]) == items + [x];
      }
    }
  }

  lemma UpsertShift(items: seq<Summary>, x: Summary, k: int)
    requires items != [] && items[0].id != x.id
    requires FirstWithId(items[1..], x.id, k) && Upsert(items[1..], x) == items[1..][k := x]
    ensures FirstWithId(items, x.id, k + 1) && Upsert(items, x) == items[k + 1 := x]
  {
    assert [items[0]] + items[1..][k := x] == items[k + 1 := x];
    forall j | 1 <= j < k + 1
      ensures items[j].id != x.id
    {
      assert items[j] == items[1..][j - 1];
    }
  }

  lemma {:induction false} UpsertIdempotent(items: seq<Summary>, x: Summary)
    ensures Upsert(Upsert(items, x), x) == Upsert(items, x)
  {
    if items == [] {
    } else if items[0].id == x.id {
      assert ([x] + items[1..])[1..] == items[1..];
    } else {
      var r := Upsert(items, x);
      assert r[0] == items[0] && r[1..] == Upsert(items[1..], x);
      UpsertIdempotent(items[1..], x);
    }
  }

  /** The filter `delete` applies: keep the summaries whose id differs. */
  function KeepOthers(id: string): Summary -> bool {
    (x: Summary) => x.id != id
  }

  /** Removing an id after upserting a summary with that id removes the same summaries as before. */
  lemma {:induction false} FilterUpsert(items: seq<Summary>, x: Summary)
    ensures Filter(Upsert(items, x), KeepOthers(x.id)) == Filter(items, KeepOthers(x.id))
  {
    var p := KeepOthers(x.id);
    if items == [] {
      assert Filter([x], p) == [] + Filter([x][1..], p);
    } else if items[0].id == x.id {
      assert Filter([x] + items[1..], p) == [] + Filter(([x] + items[1..])[1..], p);
      assert ([x] + items[1..])[1..] == items[1..];
    } else {
      var r := Upsert(items, x);
      assert r[0] == items[0] && r[1..] == Upsert(items[1..], x);
      FilterUpsert(items[1..], x);
    }
  }

  // ---------------------------------------------------------------------------
  // edit and delete

  /** `data.get('id', '').strip()` and the defaults of `titles`, `contents` and `tags`. */
  function Parse(req: EditRequest): (sub: Submission)
    ensures var raw := req.id.GetOr("");
      exists i :: StrippedAt(raw, sub.id, i)
    ensures sub.id != "" ==> !IsSpace(sub.id[0]) && !IsSpace(sub.id[|sub.id| - 1])
    ensures sub.id == "" <==> AllSpace(req.id.GetOr(""))
    ensures req.titles.None? ==> sub.titles == map[]
    ensures req.titles.Some? ==> sub.titles == req.titles.value
    ensures req.contents.None? ==> sub.contents == map[]
    ensures req.contents.Some? ==> sub.contents == req.contents.value
    ensures req.tags.None? ==> sub.tags == []
    ensures req.tags.Some? ==> sub.tags == req.tags.value
  {
    Submission(Strip(req.id.GetOr("")), req.titles.GetOr(map[]), req.contents.GetOr(map[]), req.tags.GetOr([]))
  }

  /** Whether `edit` rejects the request: the stripped id is empty or the ru title is missing or empty. */
  predicate Rejected(sub: Submission) {
    sub.id == "" || !Truthy(Get(sub.titles, "ru"))
  }

  /** The `/edit` handler, on the parsed request, once the edit cookie has been accepted. */
  function Edit(sub: Submission, s: Store): (r: Reply)
    ensures r.status == 400 <==> Rejected(sub)
    ensures r.status == 400 || r.status == 201
    ensures r.status == 400 ==> r.store == s
    ensures r.status == 201 ==> sub.id in r.store.faq && r.store.faq.Keys == s.faq.Keys + {sub.id}
    ensures r.status == 201 ==> forall k :: k in s.faq && k != sub.id ==> r.store.faq[k] == s.faq[k]
    ensures r.status == 201 ==> |r.store.all| == (if HasId(s.all, sub.id) then |s.all| else |s.all| + 1)
  {
    var id := sub.id;
    var titles := sub.titles;
    if id == "" || !Truthy(Get(titles, "ru")) then Reply(400, s)
    else
      var filledTitles := Fill(titles);
      var filledContents := Fill(sub.contents);
      var tags := sub.tags;
      var faq := s.faq[id := Record(id, filledTitles, filledContents, tags)];
      Reply(201, Store(Upsert(s.all, Summary(id, filledTitles, tags)), faq))
  }

  /**
   * An accepted edit stores the full filled record under the stripped id, with
   * all three titles truthy, and puts its summary into the list.
   */
  lemma EditWritesRecord(sub: Submission, s: Store)
    requires !Rejected(sub)
    ensures var r := Edit(sub, s); var id := sub.id;
      && r.status == 201
      && r.store.faq[id] == Record(id, Fill(sub.titles), Fill(sub.contents), sub.tags)
      && Truthy(Get(r.store.faq[id].titles, "en")) && Truthy(Get(r.store.faq[id].titles, "ro"))
      && Summary(id, Fill(sub.titles), sub.tags) in r.store.all
  {
  }

  /** With both files missing, an accepted edit leaves exactly its own summary and record. */
  lemma EditOnMissingFiles(sub: Submission)
    requires !Rejected(sub)
    ensures Edit(sub, LoadStore(None, None)) ==
      Reply(201, Store([Summary(sub.id, Fill(sub.titles), sub.tags)],
                       map[sub.id := Record(sub.id, Fill(sub.titles), Fill(sub.contents), sub.tags)]))
  {
  }

  /** Sending the same edit twice leaves the store as sending it once. */
  lemma EditIdempotent(sub: Submission, s: Store)
    ensures Edit(sub, Edit(sub, s).store) == Edit(sub, s)
  {
    if !Rejected(sub) {
      var id := sub.id;
      UpsertIdempotent(s.all, Summary(id, Fill(sub.titles), sub.tags));
    }
  }

  /** The `/delete` handler once the edit cookie has been accepted; `id` is not stripped. */
  function Delete(id: Option<string>, s: Store): (r: Reply)
    ensures r.status == 400 <==> id.GetOr("") == ""
    ensures r.status == 400 || r.status == 200
    ensures r.status == 400 ==> r.store == s
    ensures r.status == 200 ==>
      && (forall x :: x in r.store.all <==> x in s.all && x.id != id.value)
      && r.store.faq.Keys == s.faq.Keys - {id.value}
      && (forall k :: k in r.store.faq ==> r.store.faq[k] == s.faq[k])
  {
    var target := id.GetOr("");
    if target == "" then Reply(400, s)
    else Reply(200, Store(Filter(s.all, KeepOthers(target)), s.faq - {target}))
  }

  /** Deleting keeps the other summaries in their order: it distributes over splitting the list. */
  lemma DeleteKeepsOrder(target: string, a: seq<Summary>, b: seq<Summary>, faq: map<string, Record>)
    requires target != ""
    ensures Delete(Some(target), Store(a + b, faq)).store.all
         == Delete(Some(target), Store(a, faq)).store.all + Delete(Some(target), Store(b, faq)).store.all
  {
    FilterConcat(a, b, KeepOthers(target));
  }

  /** Deleting the same id twice leaves the store as deleting it once. */
  lemma DeleteIdempotent(id: Option<string>, s: Store)
    ensures Delete(id, Delete(id, s).store) == Delete(id, s)
  {
    if id.GetOr("") != "" {
      FilterIdempotent(s.all, KeepOthers(id.value));
      assert (s.faq - {id.value}) - {id.value} == s.faq - {id.value};
    }
  }

  /** Deleting the id an accepted edit wrote removes every trace of that edit. */
  lemma DeleteUndoesEdit(sub: Submission, s: Store)
    requires !Rejected(sub)
    ensures var id := Some(sub.id);
      Delete(id, Edit(sub, s).store) == Delete(id, s)
  {
    var id := sub.id;
    var x := Summary(id, Fill(sub.titles), sub.tags);
    var faq := s.faq[id := Record(id, Fill(sub.titles), Fill(sub.contents), sub.tags)];
    assert Edit(sub, s).store == Store(Upsert(s.all, x), faq);
    FilterUpsert(s.all, x);
    assert faq - {id} == s.faq - {id};
  }
}
