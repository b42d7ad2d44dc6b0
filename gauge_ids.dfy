/** The station key: the file name of the input path with ".csv" taken out. */
module GaugeIds {

  /** The part of a path after its last '/', as a POSIX basename. */
  function Basename(path: string): (b: string)
    ensures '/' !in b
    ensures |b| <= |path| && b == path[|path| - |b|..]
    ensures |b| < |path| ==> path[|path| - |b| - 1] == '/'
  {
    if path == [] || path[|path| - 1] == '/' then []
    else Basename(path[..|path| - 1]) + [path[|path| - 1]]
  }

  const CsvExtension: string := ".csv"

  /** ".csv" occurs in `s` starting at position `i`. */
  predicate CsvAt(s: string, i: nat) {
    i + 4 <= |s| && s[i..i + 4] == CsvExtension
  }

  ghost predicate ContainsCsv(s: string) {
    exists i: nat :: CsvAt(s, i)
  }

  /**
   * Every occurrence of ".csv" removed, found left to right without overlap, as a string
   * replacement by the empty string does.
   */
  function RemoveCsv(s: string): (r: string)
    ensures |r| <= |s|
    ensures '/' !in s ==> '/' !in r
  {
    if |s| < 4 then s
    else if s[..4] == CsvExtension then RemoveCsv(s[4..])
    else [s[0]] + RemoveCsv(s[1..])
  }

  /** `gauge_id` of the station read from `path`. */
  function GaugeId(path: string): (id: string)
    ensures '/' !in id
  {
    RemoveCsv(Basename(path))
  }

  lemma {:induction false} BasenameOfFileInDirectory(dir: string, name: string)
    requires dir == [] || dir[|dir| - 1] == '/'
    requires '/' !in name
    ensures Basename(dir + name) == name
    decreases |name|
  {
    if name != [] {
      var init, last := name[..|name| - 1], name[|name| - 1];
      assert name == init + [last];
      BasenameOfFileInDirectory(dir, init);
      assert Basename(dir + name) == Basename(dir + init) + [last] by {
        assert (dir + name)[..|dir + name| - 1] == dir + init;
        assert (dir + name)[|dir + name| - 1] == last != '/';
      }
    } else {
      assert dir + name == dir;
    }
  }

  /** Appending ".csv" to a name free of ".csv" and removing every ".csv" gives the name back. */
  lemma {:induction false} RemoveCsvOfExtension(stem: string)
    requires !ContainsCsv(stem)
    ensures RemoveCsv(stem + CsvExtension) == stem
    decreases |stem|
  {
    var s := stem + CsvExtension;
    if stem == [] {
      assert s == CsvExtension;
      assert s[4..] == [];
    } else {
      assert s[..4] != CsvExtension by {
        if |stem| >= 4 {
          assert s[..4] == stem[0..4];
          assert !CsvAt(stem, 0);
        } else {
          assert s[..4][|stem|] == '.';
          assert CsvExtension[|stem|] != '.';
        }
      }
      var rest := stem[1..];
      assert !ContainsCsv(rest) by {
        if ContainsCsv(rest) {
          var i: nat :| CsvAt(rest, i);
          assert stem[i + 1..i + 5] == rest[i..i + 4];
          assert CsvAt(stem, i + 1);
        }
      }
      RemoveCsvOfExtension(rest);
      assert s[1..] == rest + CsvExtension;
      assert [stem[0]] + rest == stem;
    }
  }

  /** The station file `dir/<stem>.csv` has the gauge id `<stem>`. */
  lemma GaugeIdOfStationFile(dir: string, stem: string)
    requires dir == [] || dir[|dir| - 1] == '/'
    requires '/' !in stem && !ContainsCsv(stem)
    ensures GaugeId(dir + stem + CsvExtension) == stem
  {
    assert dir + stem + CsvExtension == dir + (stem + CsvExtension);
    BasenameOfFileInDirectory(dir, stem + CsvExtension);
    RemoveCsvOfExtension(stem);
  }
}
