/** `_get_ge_proton_releases`: turning the releases response into records.

    The HTTP request itself is not modelled; the decoded response is the input,
    one `Release` per element, in response order.  Drafts are skipped before their
    date is looked at; every other release becomes a record with
    `installed = False` and its converted publish date, and the first date that
    does not parse aborts the whole listing. */
module Releases {
  import opened Outcomes
  import opened ProtonRecord
  import opened Timestamps

  datatype Release = Release(draft: bool, tagName: string, publishedAt: string)

  /** The releases that are not drafts, in response order. */
  function NonDrafts(response: seq<Release>): (r: seq<Release>)
    ensures |r| <= |response|
    ensures forall x :: x in r <==> x in response && !x.draft
  {
    if |response| == 0 then []
    else if response[0].draft then NonDrafts(response[1..])
    else [response[0]] + NonDrafts(response[1..])
  }

  /** Filtering distributes over concatenation, so it keeps the response order. */
  lemma {:induction false} NonDraftsAppend(a: seq<Release>, b: seq<Release>)
    ensures NonDrafts(a + b) == NonDrafts(a) + NonDrafts(b)
  {
    if |a| > 0 {
      var ab := a + b;
      assert ab[0] == a[0] && ab[1..] == a[1..] + b;
      NonDraftsAppend(a[1..], b);
      var head := if a[0].draft then [] else [a[0]];
      assert NonDrafts(ab) == head + NonDrafts(a[1..] + b);
      assert NonDrafts(a) == head + NonDrafts(a[1..]);
    } else {
      assert a + b == b;
    }
  }

  /** The record built for a non-draft release: not installed, carrying the
      release's tag and converted date; the conversion's error otherwise. */
  function ReleaseRecord(rel: Release, utcOffset: int): (r: Result<Proton>)
    ensures r.Ok? <==> ConvertDateString(rel.publishedAt, utcOffset).Ok?
    ensures r.Err? ==> r.error == ConvertDateString(rel.publishedAt, utcOffset).error
    ensures r.Ok? ==> && !r.value.installed && r.value.version == rel.tagName
                      && r.value.publishedAt == ConvertDateString(rel.publishedAt, utcOffset).value
  {
    var published :- ConvertDateString(rel.publishedAt, utcOffset);
    Ok(Proton(rel.tagName, false, published))
  }

  /** The loop of `_get_ge_proton_releases`: one record per non-draft release,
      in response order, or the error of the first non-draft release whose date
      does not convert. */
  function ReleaseRecords(response: seq<Release>, utcOffset: int): (r: Result<seq<Proton>>)
    ensures r.Ok? <==> forall i :: 0 <= i < |response| && !response[i].draft ==> ReleaseRecord(response[i], utcOffset).Ok?
    ensures r.Ok? ==> |r.value| == |NonDrafts(response)|
    ensures r.Ok? ==> forall i :: 0 <= i < |r.value| ==> ReleaseRecord(NonDrafts(response)[i], utcOffset) == Ok(r.value[i])
    ensures r.Err? ==> exists i :: && 0 <= i < |NonDrafts(response)|
                                   && ReleaseRecord(NonDrafts(response)[i], utcOffset) == Err(r.error)
                                   && forall j :: 0 <= j < i ==> ReleaseRecord(NonDrafts(response)[j], utcOffset).Ok?
  {
    var kept := NonDrafts(response);
    var r := AllOk(kept, (rel: Release) => ReleaseRecord(rel, utcOffset));
    assert r.Ok? <==> forall i :: 0 <= i < |kept| ==> ReleaseRecord(kept[i], utcOffset).Ok?;
    KeptAllOk(response, kept, utcOffset);
    r
  }

  /** Every non-draft release converts exactly when every release kept by the
      filter does. */
  lemma KeptAllOk(response: seq<Release>, kept: seq<Release>, utcOffset: int)
    requires kept == NonDrafts(response)
    ensures (forall i :: 0 <= i < |kept| ==> ReleaseRecord(kept[i], utcOffset).Ok?)
        <==> (forall i :: 0 <= i < |response| && !response[i].draft ==> ReleaseRecord(response[i], utcOffset).Ok?)
  {
    if forall i :: 0 <= i < |kept| ==> ReleaseRecord(kept[i], utcOffset).Ok? {
      forall i | 0 <= i < |response| && !response[i].draft
        ensures ReleaseRecord(response[i], utcOffset).Ok?
      {
        assert response[i] in kept;
      }
    }
    if forall i :: 0 <= i < |response| && !response[i].draft ==> ReleaseRecord(response[i], utcOffset).Ok? {
      forall i | 0 <= i < |kept|
        ensures ReleaseRecord(kept[i], utcOffset).Ok?
      {
        assert kept[i] in response;
      }
    }
  }

  /** Every record of the release list is a not-installed record of a non-draft
      release carrying that release's tag; the list is never longer than the response. */
  lemma ReleaseRecordsShape(response: seq<Release>, utcOffset: int)
    requires ReleaseRecords(response, utcOffset).Ok?
    ensures |ReleaseRecords(response, utcOffset).value| <= |response|
    ensures forall i :: 0 <= i < |ReleaseRecords(response, utcOffset).value| ==>
      var x := ReleaseRecords(response, utcOffset).value[i];
      var rel := NonDrafts(response)[i];
      && !x.installed && x.version == rel.tagName
      && rel in response && !rel.draft
      && ConvertDateString(rel.publishedAt, utcOffset) == Ok(x.publishedAt)
  {
    var r := ReleaseRecords(response, utcOffset).value;
    forall i | 0 <= i < |r|
      ensures NonDrafts(response)[i] in NonDrafts(response)
    {
    }
  }
}
