/** `proton_version_stati`: the merged view the `show` command prints.

    One record per installed directory comes first, in listing order; then every
    record of the release list is appended unless a record that compares equal
    (same version) is already in the list, so a version known locally keeps its
    local record and a version repeated in the release list is added once.
    Finally the list is sorted with the record's `<`, which puts it in
    NON-DECREASING publish-date order: oldest first. */
module Stati {
  import opened Outcomes
  import opened ProtonRecord
  import opened Inventory
  import opened Releases
  import opened Ordering

  /** The second loop of `proton_version_stati`:
      `for x in remote: if x not in results: results.append(x)`.
      The records already present are kept, in place. */
  function AddMissing(results: seq<Proton>, remote: seq<Proton>): (r: seq<Proton>)
    ensures |results| <= |r| <= |results| + |remote|
    ensures r[..|results|] == results
    decreases |remote|
  {
    if |remote| == 0 then results
    else
      var next := if Contains(results, remote[0]) then results else results + [remote[0]];
      var r := AddMissing(next, remote[1..]);
      assert r[..|results|] == next[..|results|];
      r
  }

  /** The list after one step of the loop contains the record just considered. */
  lemma StepContains(results: seq<Proton>, x: Proton)
    ensures Contains(if Contains(results, x) then results else results + [x], x)
  {
    if !Contains(results, x) {
      assert Eq((results + [x])[|results|], x);
    }
  }

  /** A record present before the loop is still present after it. */
  lemma PrefixContains(r: seq<Proton>, results: seq<Proton>, x: Proton)
    requires |results| <= |r| && r[..|results|] == results
    requires Contains(results, x)
    ensures Contains(r, x)
  {
    var m :| 0 <= m < |results| && Eq(results[m], x);
    assert r[m] == results[m];
  }

  /** Every version of the release list ends up represented. */
  lemma {:induction false} AddMissingCovers(results: seq<Proton>, remote: seq<Proton>)
    ensures forall i :: 0 <= i < |remote| ==> Contains(AddMissing(results, remote), remote[i])
    decreases |remote|
  {
    if |remote| > 0 {
      var x := remote[0];
      var next := if Contains(results, x) then results else results + [x];
      var r := AddMissing(next, remote[1..]);
      AddMissingCovers(next, remote[1..]);
      StepContains(results, x);
      PrefixContains(r, next, x);
      forall i | 1 <= i < |remote|
        ensures Contains(r, remote[i])
      {
        assert remote[i] == remote[1..][i - 1];
      }
    }
  }

  /** A record is appended only when no record before it has its version: a
      version already in the list never gets a second record. */
  lemma {:induction false} AddMissingFresh(results: seq<Proton>, remote: seq<Proton>)
    ensures forall k :: |results| <= k < |AddMissing(results, remote)| ==>
      !Contains(AddMissing(results, remote)[..k], AddMissing(results, remote)[k])
    decreases |remote|
  {
    if |remote| > 0 {
      var x := remote[0];
      var next := if Contains(results, x) then results else results + [x];
      var r := AddMissing(next, remote[1..]);
      AddMissingFresh(next, remote[1..]);
      assert AddMissing(results, remote) == r;
      forall k | |results| <= k < |r|
        ensures !Contains(r[..k], r[k])
      {
        if k < |next| {
          assert r[..|next|] == next;
          assert r[..k] == results && r[k] == x;
        }
      }
    }
  }

  /** A record of `remote[1..]` that is the first there with its version, and
      differs in version from `remote[0]`, is the first in `remote` too. */
  lemma FirstInTail(remote: seq<Proton>, i: nat)
    requires i + 1 < |remote|
    requires !Eq(remote[0], remote[i + 1])
    requires !Contains(remote[1..][..i], remote[1..][i])
    ensures !Contains(remote[..i + 1], remote[i + 1])
  {
    var before := remote[..i + 1];
    forall j | 0 <= j < |before|
      ensures !Eq(before[j], remote[i + 1])
    {
      if j > 0 {
        assert before[j] == remote[1..][..i][j - 1];
      }
    }
  }

  /** An appended record is the first record of the release list with its version. */
  lemma {:induction false} AddMissingFirst(results: seq<Proton>, remote: seq<Proton>)
    ensures forall k :: |results| <= k < |AddMissing(results, remote)| ==>
      exists i :: 0 <= i < |remote| && AddMissing(results, remote)[k] == remote[i] && !Contains(remote[..i], remote[i])
    decreases |remote|
  {
    if |remote| > 0 {
      var x := remote[0];
      var next := if Contains(results, x) then results else results + [x];
      var r := AddMissing(next, remote[1..]);
      AddMissingFirst(next, remote[1..]);
      AddMissingFresh(results, remote);
      assert AddMissing(results, remote) == r;
      StepContains(results, x);
      var m :| 0 <= m < |next| && Eq(next[m], x);
      forall k | |results| <= k < |r|
        ensures exists i :: 0 <= i < |remote| && AddMissing(results, remote)[k] == remote[i] && !Contains(remote[..i], remote[i])
      {
        if k < |next| {
          assert r[..|next|] == next;
          assert r[k] == remote[0] && remote[..0] == [];
        } else {
          var i' :| 0 <= i' < |remote[1..]| && r[k] == remote[1..][i'] && !Contains(remote[1..][..i'], remote[1..][i']);
          assert r[..|next|] == next;
          assert r[..k][m] == next[m];
          assert !Contains(r[..k], r[k]);
          assert !Eq(x, r[k]);
          FirstInTail(remote, i');
        }
      }
      assert forall k :: |results| <= k < |AddMissing(results, remote)| ==>
        exists i :: 0 <= i < |remote| && AddMissing(results, remote)[k] == remote[i] && !Contains(remote[..i], remote[i]);
    } else {
      assert AddMissing(results, remote) == results;
    }
  }

  /** What `proton_version_stati()` does once both lists are read: merge the
      release-list records into the installed ones, then sort by publish date. */
  function Merged(installed: seq<Proton>, remote: seq<Proton>): (r: seq<Proton>)
    ensures SortedByDate(r)
    ensures |r| == |AddMissing(installed, remote)|
  {
    Sort(AddMissing(installed, remote))
  }

  /** `proton_version_stati()` over the given directory listing and releases
      response. */
  function Stati(d: Listing, response: seq<Release>, utcOffset: int): (r: Result<seq<Proton>>)
    ensures r.Ok? ==> SortedByDate(r.value)
  {
    var installed :- InstalledRecords(d);
    var remote :- ReleaseRecords(response, utcOffset);
    Ok(Merged(installed, remote))
  }

  /** A failing directory aborts the listing before the releases are looked at;
      otherwise a failing release date aborts it; otherwise the result is the
      merged view of the two record lists. */
  lemma StatiErrors(d: Listing, response: seq<Release>, utcOffset: int)
    ensures InstalledRecords(d).Err? ==> Stati(d, response, utcOffset) == Err(InstalledRecords(d).error)
    ensures InstalledRecords(d).Ok? && ReleaseRecords(response, utcOffset).Err? ==>
              Stati(d, response, utcOffset) == Err(ReleaseRecords(response, utcOffset).error)
    ensures Stati(d, response, utcOffset).Ok? <==> InstalledRecords(d).Ok? && ReleaseRecords(response, utcOffset).Ok?
    ensures Stati(d, response, utcOffset).Ok? ==>
              Stati(d, response, utcOffset).value == Merged(InstalledRecords(d).value, ReleaseRecords(response, utcOffset).value)
  {
  }

  // ----- the merged view -----

  /** The merged view is a permutation of the installed records followed by the
      added release-list records, so it has at least one record per installed one. */
  lemma MergedIsPermutation(installed: seq<Proton>, remote: seq<Proton>)
    ensures var added := AddMissing(installed, remote)[|installed|..];
            multiset(Merged(installed, remote)) == multiset(installed) + multiset(added)
    ensures |Merged(installed, remote)| >= |installed|
  {
    var merged := AddMissing(installed, remote);
    assert merged == installed + merged[|installed|..];
  }

  /** Sorting keeps exactly the records it is given. */
  lemma MergedMembers(installed: seq<Proton>, remote: seq<Proton>)
    ensures forall x :: x in Merged(installed, remote) <==> x in AddMissing(installed, remote)
  {
    var merged := AddMissing(installed, remote);
    var result := Merged(installed, remote);
    assert multiset(result) == multiset(merged);
    forall x
      ensures x in result <==> x in merged
    {
      assert x in result <==> x in multiset(result);
      assert x in merged <==> x in multiset(merged);
    }
  }

  /** Every installed record is in the merged view. */
  lemma MergedKeepsInstalled(installed: seq<Proton>, remote: seq<Proton>)
    ensures forall i :: 0 <= i < |installed| ==> installed[i] in Merged(installed, remote)
  {
    var merged := AddMissing(installed, remote);
    MergedMembers(installed, remote);
    forall i | 0 <= i < |installed|
      ensures installed[i] in merged
    {
      assert merged[i] == installed[i];
    }
  }

  /** Where each record of the merged list comes from, when the installed
      records are marked installed and the release-list records are not. */
  lemma AddMissingSources(installed: seq<Proton>, remote: seq<Proton>)
    requires forall x :: x in installed ==> x.installed
    requires forall x :: x in remote ==> !x.installed
    ensures forall x :: x in AddMissing(installed, remote) ==> (x.installed <==> x in installed)
    ensures forall x :: x in AddMissing(installed, remote) && Contains(installed, x) ==> x in installed
    ensures forall x :: x in AddMissing(installed, remote) && !x.installed ==>
      && !Contains(installed, x)
      && exists i :: 0 <= i < |remote| && x == remote[i] && !Contains(remote[..i], x)
  {
    var merged := AddMissing(installed, remote);
    AddMissingFresh(installed, remote);
    AddMissingFirst(installed, remote);
    forall x | x in merged
      ensures x.installed <==> x in installed
      ensures Contains(installed, x) ==> x in installed
      ensures !x.installed ==> !Contains(installed, x) && exists i :: 0 <= i < |remote| && x == remote[i] && !Contains(remote[..i], x)
    {
      var k :| 0 <= k < |merged| && merged[k] == x;
      if k < |installed| {
        assert x == installed[k];
      } else {
        var i :| 0 <= i < |remote| && x == remote[i] && !Contains(remote[..i], remote[i]);
        assert !x.installed;
        assert !Contains(installed, x) by {
          forall m | 0 <= m < |installed| ensures !Eq(installed[m], x) {
            assert installed[m] == merged[..k][m];
          }
        }
      }
    }
  }

  /** Local wins: a record whose version is installed is the installed record,
      the installed records are exactly the ones marked installed, and a
      not-installed record comes from the release list, is the first there with
      its version, and no installed record has that version. */
  lemma MergedLocalWins(installed: seq<Proton>, remote: seq<Proton>)
    requires forall x :: x in installed ==> x.installed
    requires forall x :: x in remote ==> !x.installed
    ensures forall x :: x in Merged(installed, remote) && Contains(installed, x) ==> x.installed && x in installed
    ensures forall x :: x in Merged(installed, remote) ==> (x.installed <==> x in installed)
    ensures forall x :: x in Merged(installed, remote) && !x.installed ==>
      && !Contains(installed, x)
      && exists i :: 0 <= i < |remote| && x == remote[i] && !Contains(remote[..i], x)
  {
    AddMissingSources(installed, remote);
    MergedMembers(installed, remote);
  }

  /** Every version of the release list is represented in the merged view. */
  lemma MergedCoversReleases(installed: seq<Proton>, remote: seq<Proton>)
    ensures forall i :: 0 <= i < |remote| ==> Contains(Merged(installed, remote), remote[i])
  {
    var merged := AddMissing(installed, remote);
    var result := Merged(installed, remote);
    AddMissingCovers(installed, remote);
    forall i | 0 <= i < |remote|
      ensures Contains(result, remote[i])
    {
      var m :| 0 <= m < |merged| && Eq(merged[m], remote[i]);
      assert merged[m] in multiset(result);
    }
  }

  /** If the installed records have pairwise distinct versions, so has the
      merged view. */
  lemma MergedDistinct(installed: seq<Proton>, remote: seq<Proton>)
    requires DistinctVersions(installed)
    ensures DistinctVersions(Merged(installed, remote))
  {
    var merged := AddMissing(installed, remote);
    AddMissingFresh(installed, remote);
    forall i, j | 0 <= i < j < |merged|
      ensures Versions(merged)[i] != Versions(merged)[j]
    {
      if j < |installed| {
        assert merged[i] == installed[i] && merged[j] == installed[j];
        assert Versions(installed)[i] != Versions(installed)[j];
      } else {
        assert merged[..j][i] == merged[i];
        assert !Eq(merged[..j][i], merged[j]);
      }
    }
    DistinctVersionsPermutation(merged, Merged(installed, remote));
  }

  /** Any other sort of the same records by publish date (Timsort's, whatever it
      does with equal dates) has the same records and the same sequence of dates. */
  lemma MergedTieOrderOnly(installed: seq<Proton>, remote: seq<Proton>, other: seq<Proton>)
    requires multiset(other) == multiset(AddMissing(installed, remote))
    requires SortedByDate(other)
    ensures multiset(other) == multiset(Merged(installed, remote))
    ensures Dates(other) == Dates(Merged(installed, remote))
  {
    SortedPermutationsAgree(other, Merged(installed, remote));
  }

  // ----- the listing of a directory and a releases response -----

  /** The records read from the directories are the directories' records, each
      marked installed. */
  lemma InstalledFlags(d: Listing, installed: seq<Proton>)
    requires InstalledRecords(d) == Ok(installed)
    ensures |installed| == |d|
    ensures forall i :: 0 <= i < |d| ==> InstalledRecord(d[i]) == Ok(installed[i]) && installed[i].installed
    ensures forall x :: x in installed ==> x.installed
  {
  }

  /** The result is a permutation of the installed records followed by the added
      release-list records, and has at least one record per directory. */
  lemma StatiIsPermutation(d: Listing, response: seq<Release>, utcOffset: int)
    requires Stati(d, response, utcOffset).Ok?
    ensures var installed := InstalledRecords(d).value;
            var added := AddMissing(installed, ReleaseRecords(response, utcOffset).value)[|installed|..];
            multiset(Stati(d, response, utcOffset).value) == multiset(installed) + multiset(added)
    ensures |Stati(d, response, utcOffset).value| >= |d|
  {
    MergedIsPermutation(InstalledRecords(d).value, ReleaseRecords(response, utcOffset).value);
  }

  /** Every directory contributes its own record: installed, with the tag and
      publish date its version file holds. */
  lemma StatiKeepsDirectories(d: Listing, response: seq<Release>, utcOffset: int)
    requires Stati(d, response, utcOffset).Ok?
    ensures forall i :: 0 <= i < |d| ==>
      && InstalledRecord(d[i]).Ok?
      && InstalledRecord(d[i]).value.installed
      && InstalledRecord(d[i]).value in Stati(d, response, utcOffset).value
  {
    InstalledFlags(d, InstalledRecords(d).value);
    MergedKeepsInstalled(InstalledRecords(d).value, ReleaseRecords(response, utcOffset).value);
  }

  /** Local wins, stated of the directories and the releases response. */
  lemma StatiLocalWins(d: Listing, response: seq<Release>, utcOffset: int)
    requires Stati(d, response, utcOffset).Ok?
    ensures forall x :: x in Stati(d, response, utcOffset).value && Contains(InstalledRecords(d).value, x) ==>
      x.installed && x in InstalledRecords(d).value
    ensures forall x :: x in Stati(d, response, utcOffset).value ==> (x.installed <==> x in InstalledRecords(d).value)
    ensures forall x :: x in Stati(d, response, utcOffset).value && !x.installed ==>
      var remote := ReleaseRecords(response, utcOffset).value;
      && !Contains(InstalledRecords(d).value, x)
      && exists i :: 0 <= i < |remote| && x == remote[i] && !Contains(remote[..i], x)
  {
    InstalledFlags(d, InstalledRecords(d).value);
    ReleaseRecordsShape(response, utcOffset);
    MergedLocalWins(InstalledRecords(d).value, ReleaseRecords(response, utcOffset).value);
  }

  /** Every version of the release list is represented in the result. */
  lemma StatiCoversReleases(d: Listing, response: seq<Release>, utcOffset: int)
    requires Stati(d, response, utcOffset).Ok?
    ensures forall i :: 0 <= i < |ReleaseRecords(response, utcOffset).value| ==>
      Contains(Stati(d, response, utcOffset).value, ReleaseRecords(response, utcOffset).value[i])
  {
    MergedCoversReleases(InstalledRecords(d).value, ReleaseRecords(response, utcOffset).value);
  }

  /** If the directories hold pairwise distinct versions, so does the result. */
  lemma StatiDistinct(d: Listing, response: seq<Release>, utcOffset: int)
    requires Stati(d, response, utcOffset).Ok?
    requires DistinctVersions(InstalledRecords(d).value)
    ensures DistinctVersions(Stati(d, response, utcOffset).value)
  {
    MergedDistinct(InstalledRecords(d).value, ReleaseRecords(response, utcOffset).value);
  }
}
