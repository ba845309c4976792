/**
 * The storage-bucket variant of the catalogue import
 * (backend/scripts/importFromBucket.js). Its brand-name, generic-name and
 * strength helpers are the same code as in importMedicines.js and are reused
 * from `CatalogueImport`; its `extractForm` takes the name alone, and is proved
 * to agree with the two-argument version given an empty pack size.
 */
module BucketImport {
  import opened Wrappers
  import opened Text
  import opened CatalogueImport

  /** `extractForm(name)` (lines 24-36): the same ladder on the lower-cased name. */
  function ExtractForm(name: string): (f: string)
    ensures IsFormLabel(f)
  {
    FormOf(LowerStr(name))
  }

  /** No pattern of the ladder ends in a space, so the trailing space that the other version appends changes nothing. */
  lemma {:induction false} FiresWithTrailingSpace(t: string, rule: FormRule)
    requires rule in FormRules
    ensures Fires(rule, t + " ") <==> Fires(rule, t)
  {
    forall p | p in rule.patterns
      ensures Contains(t + " ", p) <==> Contains(t, p)
    {
      ContainsAppendSpace(t, p);
    }
  }

  lemma {:induction false} FirstFiringWithTrailingSpace(t: string, k: nat)
    requires k <= |FormRules|
    ensures FirstFiring(t + " ", k) == FirstFiring(t, k)
    decreases |FormRules| - k
  {
    if k < |FormRules| {
      FiresWithTrailingSpace(t, FormRules[k]);
      FirstFiringWithTrailingSpace(t, k + 1);
    }
  }

  /** The bucket's `extractForm(name)` is the catalogue's `extractForm(name, '')`. */
  lemma ExtractFormAgrees(name: string)
    ensures ExtractForm(name) == CatalogueImport.ExtractForm(name, "")
  {
    LowerStrAppend(name, " ");
    assert name + " " + "" == name + " ";
    assert LowerStr(" ") == " " by {
      assert LowerStr(" ") == [Lower(' ')] + LowerStr("");
    }
    FirstFiringWithTrailingSpace(LowerStr(name), 0);
    assert FormOf(LowerStr(name) + " ") == FormOf(LowerStr(name));
  }

  /** Lines 80-96: the record built from one row. */
  function NormaliseRow(row: CsvRow): (r: Option<MedicineRecord>)
    ensures r.None? <==> row.name == ""
  {
    if row.name == "" then None else Some(RecordOf(row, ExtractForm(row.name)))
  }

  /** Both scripts build the same record from the same row. */
  lemma NormaliseRowAgrees(row: CsvRow)
    ensures NormaliseRow(row) == CatalogueImport.NormaliseRow(row)
  {
    ExtractFormAgrees(row.name);
  }

  /**
   * `importFromBucket` without the download and the CSV parsing: a failed
   * download throws; otherwise the rows are normalised and inserted in
   * batches of 500, exactly as by the other script.
   */
  method ImportFromBucket(download: Result<seq<CsvRow>>, accepts: nat -> bool) returns (r: Result<nat>)
    ensures download.Err? <==> r.Err?
    ensures download.Err? ==> r.error == "Download failed: " + download.error
    ensures download.Ok? ==> r == Ok(InsertedFrom(Records(download.value), 0, accepts))
    ensures download.Ok? ==> r.value <= NamedRows(download.value)
  {
    if download.Err? {
      return Err("Download failed: " + download.error);
    }
    var rows := download.value;
    var records := [];
    for i := 0 to |rows|
      invariant records == Records(rows[..i])
    {
      assert rows[..i + 1][..i] == rows[..i];
      NormaliseRowAgrees(rows[i]);
      var record := NormaliseRow(rows[i]);
      if record.Some? {
        records := records + [record.value];
      }
    }
    assert rows[..|rows|] == rows;
    var inserted, sent := InsertBatches(records, accepts);
    InsertedAtMost(records, 0, accepts);
    RecordsCount(rows);
    return Ok(inserted);
  }
}
