/** The install directory as the core sees it, and the three functions that read it:
    `_get_installed_proton_version_string`, `_get_installed_proton_publishdate` and
    `_is_proton_version_installed`.

    The directory is the sequence `os.listdir(PROTON_DIR)` returns, in that order;
    each entry carries the text `f.read()` returns for its `version` file (decoded,
    newlines translated to `\n`), or `None` when opening or decoding that file fails.
    A version file reads `<publish date> <tag> ...`: it is split at every single
    space, field 0 is the date and field 1, stripped, is the tag.
    Entries whose file is missing or malformed are NOT skipped: every reader raises
    on them, which the model reports as an `Err`. */
module Inventory {
  import opened Outcomes
  import opened PyStr
  import opened ProtonRecord

  datatype Entry = Entry(name: string, versionFile: Option<string>)

  type Listing = seq<Entry>

  /** `_get_installed_proton_version_string(e.name)`: `f.read().split(" ")[1].strip()`.
      It raises when the file cannot be read, and when the text has no space
      (there is no field 1); otherwise the tag has neither spaces nor
      surrounding whitespace. */
  function VersionTag(e: Entry): (r: Result<string>)
    ensures e.versionFile.None? <==> r == Err(VersionFileMissing(e.name))
    ensures (e.versionFile.Some? && ' ' !in e.versionFile.value) <==> r == Err(TagFieldMissing(e.name))
    ensures r.Ok? ==> Trimmed(r.value) && ' ' !in r.value
  {
    match e.versionFile
    case None => Err(VersionFileMissing(e.name))
    case Some(text) =>
      SplitHasSeparator(text, ' ');
      var fields := Split(text, ' ');
      if |fields| < 2 then Err(TagFieldMissing(e.name)) else Ok(Strip(fields[1]))
  }

  /** `_get_installed_proton_publishdate(e.name)`: `int(f.read().split(" ")[0])`.
      It raises only for an unreadable file or a first field `int()` refuses;
      a text without a space is read whole as the date. */
  function PublishDate(e: Entry): (r: Result<int>)
    ensures e.versionFile.None? <==> r == Err(VersionFileMissing(e.name))
    ensures r.Err? ==> r.error == VersionFileMissing(e.name) || r.error == PublishDateInvalid(e.name)
    ensures e.versionFile.Some? && ' ' !in e.versionFile.value ==>
              r == match ParseInt(e.versionFile.value)
                   case Some(n) => Ok(n)
                   case None => Err(PublishDateInvalid(e.name))
  {
    match e.versionFile
    case None => Err(VersionFileMissing(e.name))
    case Some(text) =>
      SplitHasSeparator(text, ' ');
      assert ' ' !in text ==> Split(text, ' ') == [text];
      match ParseInt(Split(text, ' ')[0])
      case None => Err(PublishDateInvalid(e.name))
      case Some(n) => Ok(n)
  }

  /** The record `proton_version_stati` builds for one directory; the keyword
      arguments are evaluated in order, so the tag is read before the date. */
  function InstalledRecord(e: Entry): (r: Result<Proton>)
    ensures r.Ok? <==> VersionTag(e).Ok? && PublishDate(e).Ok?
    ensures VersionTag(e).Err? ==> r == Err(VersionTag(e).error)
    ensures r.Ok? ==> r.value == Proton(VersionTag(e).value, true, PublishDate(e).value)
  {
    var tag :- VersionTag(e);
    var date :- PublishDate(e);
    Ok(Proton(tag, true, date))
  }

  /** The text of a version file with the given space-free fields. */
  function VersionFileText(fields: seq<string>): string
    requires |fields| >= 1
  {
    Join(fields, ' ')
  }

  /** Reading a version file made of two or more space-free fields: the tag is
      field 1 stripped, the date is `int()` of field 0, and whatever follows is
      ignored.  As every text is the join of its own split, this covers every file
      with at least one space. */
  lemma ReadFields(name: string, fields: seq<string>)
    requires |fields| >= 2
    requires forall i :: 0 <= i < |fields| ==> ' ' !in fields[i]
    ensures VersionTag(Entry(name, Some(VersionFileText(fields)))) == Ok(Strip(fields[1]))
    ensures PublishDate(Entry(name, Some(VersionFileText(fields))))
            == (if ParseInt(fields[0]).Some? then Ok(ParseInt(fields[0]).value) else Err(PublishDateInvalid(name)))
  {
    SplitJoin(fields, ' ');
  }

  /** A version file without a space has no tag field: reading the tag raises,
      even when the whole text is a valid date. */
  lemma ReadSingleField(name: string, text: string)
    requires ' ' !in text
    ensures VersionTag(Entry(name, Some(text))) == Err(TagFieldMissing(name))
    ensures InstalledRecord(Entry(name, Some(text))) == Err(TagFieldMissing(name))
  {
    SplitJoin([text], ' ');
  }

  /** The first two fields of `w + " " + tag + tail`, for a space-free `w` and
      `tag` and a `tail` that is empty or starts a new field. */
  lemma SplitDateAndTag(w: string, tag: string, tail: string)
    requires ' ' !in w && ' ' !in tag
    requires tail == [] || tail[0] == ' '
    ensures |Split(w + " " + tag + tail, ' ')| >= 2
    ensures Split(w + " " + tag + tail, ' ')[0] == w
    ensures Split(w + " " + tag + tail, ' ')[1] == tag
  {
    var t := " " + tag + tail;
    assert w + " " + tag + tail == w + t;
    SplitPrefix(w, t, ' ');
    assert t[1..] == tag + tail;
    SplitPrefix(tag, tail, ' ');
    if tail == [] {
      assert tag + tail == tag;
    } else {
      assert tail == [' '] + tail[1..];
    }
  }

  /** A version file written as `<date> <tag>`, possibly followed by more fields,
      reads back as that date and the stripped tag (a trailing newline is dropped),
      unless the date has more digits than `int()` accepts. */
  lemma ReadWrittenFile(name: string, date: int, tag: string, tail: string)
    requires ' ' !in tag
    requires tail == [] || tail[0] == ' '
    ensures InstalledRecord(Entry(name, Some(IntToDecimal(date) + " " + tag + tail)))
            == if FitsIntLimit(date) then Ok(Proton(Strip(tag), true, date)) else Err(PublishDateInvalid(name))
  {
    var w := IntToDecimal(date);
    assert ' ' !in w by {
      ParseSignedDecimal(date);
      forall k | 0 <= k < |w| ensures w[k] != ' ' {
        if date < 0 && k == 0 {
        } else {
          assert date < 0 ==> w[k] == NatToDecimal(-date)[k - 1];
        }
      }
    }
    SplitDateAndTag(w, tag, tail);
    ParseIntDecimal(date, "", "");
    assert "" + w + "" == w;
  }

  /** Appending a zero digit multiplies by ten. */
  lemma DecimalShift(k: nat)
    requires k >= 1
    ensures NatToDecimal(k * 10) == NatToDecimal(k) + "0"
  {
    assert (k * 10) / 10 == k && (k * 10) % 10 == 0;
  }

  lemma DecimalExample(n: nat)
    requires n == 1700000000
    ensures IntToDecimal(n) == "1700000000"
    ensures FitsIntLimit(n)
  {
    assert NatToDecimal(17) == "17" by {
      assert NatToDecimal(1) == "1";
    }
    DecimalShift(17);
    DecimalShift(170);
    DecimalShift(1700);
    DecimalShift(17000);
    DecimalShift(170000);
    DecimalShift(1700000);
    DecimalShift(17000000);
    DecimalShift(170000000);
  }

  lemma ExampleExtraFieldText(date: nat, tag: string, text: string)
    requires date == 1700000000 && tag == "GE-Proton9-20" && text == "1700000000 GE-Proton9-20 extra"
    ensures IntToDecimal(date) + " " + tag + " extra" == text
  {
    DecimalExample(date);
  }

  lemma ExampleNewlineText(date: nat, tag: string, text: string)
    requires date == 1700000000 && tag == "GE-Proton9-20" && text == "1700000000 GE-Proton9-20\n"
    ensures IntToDecimal(date) + " " + (tag + "\n") + "" == text
  {
    DecimalExample(date);
  }

  lemma ExampleStrip(tag: string)
    requires tag == "GE-Proton9-20"
    ensures Strip(tag) == tag
    ensures Strip(tag + "\n") == tag
  {
    StripPadded("", tag, "");
    assert "" + tag + "" == tag;
    StripPadded("", tag, "\n");
    assert "" + tag + "\n" == tag + "\n";
  }

  lemma ExampleTagHasNoSpace(tag: string)
    requires tag == "GE-Proton9-20"
    ensures ' ' !in tag && ' ' !in tag + "\n"
  {
  }

  /** A version file with a field after the tag: the extra field is ignored. */
  lemma ReadExampleExtraField(name: string, date: nat, tag: string, text: string)
    requires date == 1700000000 && tag == "GE-Proton9-20" && text == "1700000000 GE-Proton9-20 extra"
    ensures InstalledRecord(Entry(name, Some(text))) == Ok(Proton(tag, true, date))
  {
    ExampleExtraFieldText(date, tag, text);
    DecimalExample(date);
    ExampleTagHasNoSpace(tag);
    ExampleStrip(tag);
    ReadWrittenFile(name, date, tag, " extra");
  }

  /** A trailing newline after the tag is stripped. */
  lemma ReadExampleNewline(name: string, date: nat, tag: string, text: string)
    requires date == 1700000000 && tag == "GE-Proton9-20" && text == "1700000000 GE-Proton9-20\n"
    ensures InstalledRecord(Entry(name, Some(text))) == Ok(Proton(tag, true, date))
  {
    ExampleNewlineText(date, tag, text);
    DecimalExample(date);
    ExampleTagHasNoSpace(tag);
    ExampleStrip(tag);
    ReadWrittenFile(name, date, tag + "\n", "");
  }

  // ----- _is_proton_version_installed -----

  /** Every entry before `k` has a readable tag, and none of them is `v`. */
  predicate ScannedPast(d: Listing, v: string, k: nat)
    requires k <= |d|
  {
    forall j :: 0 <= j < k ==> VersionTag(d[j]).Ok? && VersionTag(d[j]).value != v
  }

  /** Entry `i` is where the scan for `v` stops with a match. */
  predicate FirstMatch(d: Listing, v: string, i: nat) {
    i < |d| && ScannedPast(d, v, i) && VersionTag(d[i]) == Ok(v)
  }

  /** Entry `i` is where the scan for `v` stops by raising `e`. */
  predicate FirstFailure(d: Listing, v: string, i: nat, e: Error) {
    i < |d| && ScannedPast(d, v, i) && VersionTag(d[i]) == Err(e)
  }

  /** The `for` loop of `_is_proton_version_installed` from entry `i` on: the
      index of the first entry whose tag is `v`, `None` when the loop runs out,
      or the error of the first unreadable entry met on the way. */
  function LocateFrom(d: Listing, v: string, i: nat): (r: Result<Option<nat>>)
    requires i <= |d| && ScannedPast(d, v, i)
    ensures r.Ok? && r.value.Some? ==> i <= r.value.value && FirstMatch(d, v, r.value.value)
    ensures r == Ok(None) ==> ScannedPast(d, v, |d|)
    ensures r.Err? ==> exists j :: i <= j && FirstFailure(d, v, j, r.error)
    decreases |d| - i
  {
    if i == |d| then Ok(None)
    else
      match VersionTag(d[i])
      case Err(e) => assert FirstFailure(d, v, i, e); Err(e)
      case Ok(t) => if t == v then Ok(Some(i)) else LocateFrom(d, v, i + 1)
  }

  function Locate(d: Listing, v: string): (r: Result<Option<nat>>)
    ensures r.Ok? && r.value.Some? ==> FirstMatch(d, v, r.value.value)
    ensures r == Ok(None) ==> ScannedPast(d, v, |d|)
    ensures r.Err? ==> exists j :: FirstFailure(d, v, j, r.error)
  {
    LocateFrom(d, v, 0)
  }

  /** `_is_proton_version_installed(v)`: True only when some entry's tag is `v`
      and every entry before it is readable; False only when every entry is
      readable and none is `v`; an error only from an unreadable entry met first. */
  function IsInstalled(d: Listing, v: string): (r: Result<bool>)
    ensures r == Ok(true) ==> exists i :: FirstMatch(d, v, i)
    ensures r == Ok(false) ==> ScannedPast(d, v, |d|)
    ensures r.Err? ==> exists i :: FirstFailure(d, v, i, r.error)
  {
    var found :- Locate(d, v);
    Ok(found.Some?)
  }

  /** The scan answers True exactly when some entry's tag is `v` and every entry
      before it is readable; False exactly when every entry is readable and none
      is `v`; and otherwise raises the error of the first unreadable entry. */
  lemma IsInstalledIff(d: Listing, v: string)
    ensures IsInstalled(d, v) == Ok(true) <==> exists i :: FirstMatch(d, v, i)
    ensures IsInstalled(d, v) == Ok(false) <==> ScannedPast(d, v, |d|)
    ensures forall e :: IsInstalled(d, v) == Err(e) <==> exists i :: FirstFailure(d, v, i, e)
  {
  }

  // ----- the installed records of proton_version_stati -----

  /** The first loop of `proton_version_stati`: one record per directory entry, in
      listing order, or the first error a directory's version file raises. */
  function InstalledRecords(d: Listing): (r: Result<seq<Proton>>)
    ensures r.Ok? <==> forall i :: 0 <= i < |d| ==> InstalledRecord(d[i]).Ok?
    ensures r.Ok? ==> |r.value| == |d| && forall i :: 0 <= i < |d| ==> InstalledRecord(d[i]) == Ok(r.value[i])
    ensures r.Err? ==> exists i :: 0 <= i < |d| && InstalledRecord(d[i]) == Err(r.error)
                                   && forall j :: 0 <= j < i ==> InstalledRecord(d[j]).Ok?
  {
    AllOk(d, InstalledRecord)
  }
}
