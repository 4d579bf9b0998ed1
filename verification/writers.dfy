/** `sort_by_writers`, identical in the three readers: each file of the
    handwritten-score dataset is filed under the `(writer, page)` read from
    its name, and its name is rewritten to the dataset's directory layout.
    The dictionary is kept as a list of groups in insertion order, which is
    the iteration order of a Python `dict`. */
module Writers {
  import opened Wrappers
  import PySeq
  import PyText
  import Filenames

  /** A file of the dataset: its name, and whatever else it carries, which
      the regrouping leaves alone. */
  datatype File<T> = File(filename: string, data: T)

  datatype Key = Key(writer: int, page: int)

  /** One entry of the returned dictionary. */
  datatype Group<T> = Group(key: Key, files: seq<File<T>>)

  /** What one name yields: its key and its rewritten name. */
  datatype Parsed = Parsed(key: Key, renamed: string)

  /** `str(n).zfill(width)`. */
  function Padded(n: int, width: int): string
  {
    PyText.ZFill(PyText.Show(n), width)
  }

  /** The layout a file is moved to: distortion, writer directory, page. */
  function Layout(distortion: string, k: Key): string
  {
    distortion + "/w-" + Padded(k.writer, 2) + "/image/p" + Padded(k.page, 3) + ".png"
  }

  /** The body of the loop for one name. The page is the three characters
      after the first 'p'; the writer is the two characters after the first
      "W-", or one when the third is '_'; the distortion is what follows the
      '_' after the writer. A `str.find` that fails gives -1, so the slices
      then start near the front of the name. */
  function ParseName(fn: string): (r: Result<Parsed>)
    ensures r.Err? ==> r.error == ValueError || r.error == IndexError
    ensures r.Ok? ==> exists d :: r.value.renamed == Layout(d, r.value.key)
  {
    var p := Filenames.Find(fn, "p", 0);
    var page :- PyText.ParseInt(PySeq.Slice(fn, p + 1, p + 4));
    var w := Filenames.Find(fn, "W-", 0);
    var at :- if PySeq.Index(|fn|, w + 3).Some? then Ok(PySeq.Index(|fn|, w + 3).value) else Err(IndexError);
    var writer :- if fn[at] != '_' then PyText.ParseInt(PySeq.Slice(fn, w + 2, w + 4)) else PyText.ParseInt([fn[w + 2]]);
    var pos := if fn[at] != '_' then w + 4 else w + 3;
    var k := Key(writer, page);
    Ok(Parsed(k, Layout(PySeq.SliceFrom(fn, pos + 1), k)))
  }

  /** The position of the group of `k`, or -1 when there is none. */
  function IndexOf<T>(groups: seq<Group<T>>, k: Key): (i: int)
    ensures -1 <= i < |groups|
    ensures i >= 0 ==> groups[i].key == k
    ensures i < 0 ==> forall j :: 0 <= j < |groups| ==> groups[j].key != k
  {
    if |groups| == 0 then -1
    else if groups[0].key == k then 0
    else
      var i := IndexOf(groups[1..], k);
      if i < 0 then -1 else i + 1
  }

  /** `sorted_files[k].append(f)`, after opening the group of `k` at the
      end when it is new. */
  function Add<T>(groups: seq<Group<T>>, k: Key, f: File<T>): seq<Group<T>>
  {
    var i := IndexOf(groups, k);
    if i < 0 then groups + [Group(k, [f])]
    else groups[i := groups[i].(files := groups[i].files + [f])]
  }

  /** A file paired with what its name reads as: its key and the file
      under its rewritten name. */
  datatype Entry<T> = Entry(key: Key, file: File<T>)

  /** The body of the loop for one file, but for the filing. */
  function Read<T>(f: File<T>): (r: Result<Entry<T>>)
  {
    var p :- ParseName(f.filename);
    Ok(Entry(p.key, f.(filename := p.renamed)))
  }

  /** The reading half of the loop, over the files in order: the first file
      whose name does not parse ends it with that name's error. */
  function Entries<T>(files: seq<File<T>>): (r: Result<seq<Entry<T>>>)
    ensures r.Ok? <==> forall i :: 0 <= i < |files| ==> Read(files[i]).Ok?
    ensures r.Ok? ==> |r.value| == |files| && forall i :: 0 <= i < |files| ==> Ok(r.value[i]) == Read(files[i])
    ensures r.Err? ==> exists i :: 0 <= i < |files| && Read(files[i]) == Err(r.error)
    decreases |files|
  {
    if |files| == 0 then Ok([])
    else
      var e :- Read(files[0]);
      var es :- Entries(files[1..]);
      Ok([e] + es)
  }

  /** The filing half of the loop. */
  function GroupAll<T>(es: seq<Entry<T>>): seq<Group<T>>
  {
    if |es| == 0 then []
    else Add(GroupAll(es[..|es| - 1]), es[|es| - 1].key, es[|es| - 1].file)
  }

  /** The loop. Filing never fails, so reading every name first and then
      filing gives the same dictionary, or the same first error, as the
      loop that interleaves the two. */
  function SortByWriters<T>(files: seq<File<T>>): (r: Result<seq<Group<T>>>)
  {
    var es :- Entries(files);
    Ok(GroupAll(es))
  }

  /** The reference grouping: in order, the files of the entries read as
      `k`. */
  function Filed<T>(es: seq<Entry<T>>, k: Key): seq<File<T>>
  {
    if |es| == 0 then []
    else Filed(es[..|es| - 1], k) + (if es[|es| - 1].key == k then [es[|es| - 1].file] else [])
  }

  predicate DistinctKeys<T>(groups: seq<Group<T>>)
  {
    forall i, j :: 0 <= i < j < |groups| ==> groups[i].key != groups[j].key
  }

  /** Each group non-empty and holding exactly the files filed under its
      key. */
  ghost predicate GroupsFiled<T>(es: seq<Entry<T>>, groups: seq<Group<T>>)
  {
    forall i :: 0 <= i < |groups| ==> |groups[i].files| > 0 && groups[i].files == Filed(es, groups[i].key)
  }

  /** A group for every key read. */
  predicate Covers<T>(es: seq<Entry<T>>, groups: seq<Group<T>>)
  {
    forall j :: 0 <= j < |es| ==> IndexOf(groups, es[j].key) >= 0
  }

  /** What the dictionary is after some prefix of the entries. */
  ghost predicate Partition<T>(es: seq<Entry<T>>, groups: seq<Group<T>>)
  {
    DistinctKeys(groups) && GroupsFiled(es, groups) && Covers(es, groups)
  }

  /** A key read from no entry has an empty reference group. */
  lemma {:induction false} FiledUnread<T>(es: seq<Entry<T>>, k: Key)
    requires forall j :: 0 <= j < |es| ==> es[j].key != k
    ensures Filed(es, k) == []
  {
    if |es| > 0 {
      FiledUnread(es[..|es| - 1], k);
    }
  }

  /** Filing the entry of a new key opens its group at the end. */
  lemma StepNew<T>(es: seq<Entry<T>>, groups: seq<Group<T>>)
    requires |es| > 0 && Partition(es[..|es| - 1], groups)
    requires IndexOf(groups, es[|es| - 1].key) < 0
    ensures Partition(es, Add(groups, es[|es| - 1].key, es[|es| - 1].file))
  {
    var prefix := es[..|es| - 1];
    var e := es[|es| - 1];
    var r := Add(groups, e.key, e.file);
    assert r == groups + [Group(e.key, [e.file])];
    forall j | 0 <= j < |prefix| ensures prefix[j].key != e.key {
      var m := IndexOf(groups, prefix[j].key);
      assert groups[m].key == prefix[j].key;
    }
    FiledUnread(prefix, e.key);
    assert GroupsFiled(es, r) by {
      forall i | 0 <= i < |r| ensures |r[i].files| > 0 && r[i].files == Filed(es, r[i].key) {
        if i < |groups| {
          assert r[i] == groups[i];
        }
      }
    }
    assert Covers(es, r) by {
      forall j | 0 <= j < |es| ensures IndexOf(r, es[j].key) >= 0 {
        if j < |prefix| {
          assert prefix[j] == es[j];
          var m := IndexOf(groups, es[j].key);
          assert r[m] == groups[m];
        } else {
          assert r[|groups|].key == e.key;
        }
      }
    }
  }

  /** Filing the entry of a key already seen extends its group and no
      other. */
  lemma StepOld<T>(es: seq<Entry<T>>, groups: seq<Group<T>>)
    requires |es| > 0 && Partition(es[..|es| - 1], groups)
    requires IndexOf(groups, es[|es| - 1].key) >= 0
    ensures Partition(es, Add(groups, es[|es| - 1].key, es[|es| - 1].file))
  {
    var prefix := es[..|es| - 1];
    var e := es[|es| - 1];
    var r := Add(groups, e.key, e.file);
    var i0 := IndexOf(groups, e.key);
    assert forall i :: 0 <= i < |r| ==> r[i].key == groups[i].key;
    assert GroupsFiled(es, r) by {
      forall i | 0 <= i < |r| ensures |r[i].files| > 0 && r[i].files == Filed(es, r[i].key) {
        if i != i0 {
          assert r[i] == groups[i];
        }
      }
    }
    assert Covers(es, r) by {
      forall j | 0 <= j < |es| ensures IndexOf(r, es[j].key) >= 0 {
        if j < |prefix| {
          assert prefix[j] == es[j];
          var m := IndexOf(groups, es[j].key);
          assert r[m].key == es[j].key;
        } else {
          assert r[i0].key == e.key;
        }
      }
    }
  }

  /** Filing keeps the dictionary a partition of the entries. */
  lemma {:induction false} GroupAllPartition<T>(es: seq<Entry<T>>)
    ensures Partition(es, GroupAll(es))
    decreases |es|
  {
    if |es| > 0 {
      var prefix := es[..|es| - 1];
      GroupAllPartition(prefix);
      if IndexOf(GroupAll(prefix), es[|es| - 1].key) < 0 {
        StepNew(es, GroupAll(prefix));
      } else {
        StepOld(es, GroupAll(prefix));
      }
    }
  }

  /** The loop finishes exactly when every name parses, and then the
      dictionary holds one group per `(writer, page)` read, each key once,
      each group the files read as that key, in input order and under their
      rewritten names, with everything but the name unchanged. */
  lemma SortByWritersPartition<T>(files: seq<File<T>>)
    ensures SortByWriters(files).Ok? <==> forall i :: 0 <= i < |files| ==> ParseName(files[i].filename).Ok?
    ensures SortByWriters(files).Ok? ==> Partition(Entries(files).value, SortByWriters(files).value)
  {
    if Entries(files).Ok? {
      GroupAllPartition(Entries(files).value);
    }
  }

  /** The names the rewriting is designed for: `p` and a three-digit page,
      `_W-` and a one- or two-digit writer, `_` and the distortion. */
  function DatasetName(page: string, writer: string, distortion: string): string
  {
    "p" + page + "_W-" + writer + "_" + distortion
  }

  predicate WellFormed(page: string, writer: string)
  {
    && |page| == 3 && PyText.AllDigits(page)
    && (|writer| == 1 || |writer| == 2) && PyText.AllDigits(writer)
  }

  /** Where the parts of a dataset name sit. */
  lemma DatasetNameParts(page: string, writer: string, distortion: string)
    requires WellFormed(page, writer)
    ensures var fn := DatasetName(page, writer, distortion);
      && |fn| == 8 + |writer| + |distortion|
      && fn[0] == 'p' && fn[1..4] == page && fn[4] == '_' && fn[5..7] == "W-"
      && fn[7..7 + |writer|] == writer && fn[7 + |writer|] == '_'
      && fn[8 + |writer|..] == distortion
  {
  }

  /** The first "W-" of a dataset name is the one after the page. */
  lemma DatasetNameFinds(page: string, writer: string, distortion: string)
    requires WellFormed(page, writer)
    ensures var fn := DatasetName(page, writer, distortion);
      Filenames.Find(fn, "p", 0) == 0 && Filenames.Find(fn, "W-", 0) == 5
  {
    var fn := DatasetName(page, writer, distortion);
    DatasetNameParts(page, writer, distortion);
    assert Filenames.OccursAt(fn, "p", 0) by { assert fn[0..1] == "p"; }
    assert Filenames.OccursAt(fn, "W-", 5);
    forall i | 0 <= i < 5 ensures !Filenames.OccursAt(fn, "W-", i) {
      assert fn[i] != 'W' by {
        if 1 <= i < 4 {
          assert fn[i] == fn[1..4][i - 1] == page[i - 1];
          assert PyText.IsDigit(page[i - 1]);
        }
      }
    }
  }

  /** Reading a dataset name gives back the writer and page it spells and
      rewrites it to the layout of its distortion. */
  lemma DatasetNameRoundTrip(page: string, writer: string, distortion: string)
    requires WellFormed(page, writer)
    ensures var k := Key(PyText.Value(writer), PyText.Value(page));
      ParseName(DatasetName(page, writer, distortion)) == Ok(Parsed(k, Layout(distortion, k)))
  {
    var fn := DatasetName(page, writer, distortion);
    DatasetNameParts(page, writer, distortion);
    DatasetNameFinds(page, writer, distortion);
    assert PySeq.Slice(fn, 1, 4) == page;
    assert PyText.ParseInt(page) == Ok(PyText.Value(page));
    assert PySeq.Index(|fn|, 8) == Some(8);
    if |writer| == 2 {
      assert fn[8] == fn[7..9][1] == writer[1];
      assert fn[8] != '_' by { assert PyText.IsDigit(writer[1]); }
      assert PySeq.Slice(fn, 7, 9) == writer;
      assert PyText.ParseInt(writer) == Ok(PyText.Value(writer));
      assert PySeq.SliceFrom(fn, 10) == distortion;
    } else {
      assert fn[8] == '_';
      assert [fn[7]] == fn[7..8] == writer;
      assert PyText.ParseInt(writer) == Ok(PyText.Value(writer));
      assert PySeq.SliceFrom(fn, 9) == distortion;
    }
  }

  lemma {:induction false} ShowNatShort(n: nat, k: nat)
    requires 1 <= k && n < PyText.Pow10(k)
    ensures |PyText.ShowNat(n)| <= k
  {
    if n >= 10 {
      ShowNatShort(n / 10, k - 1);
    }
  }

  /** A natural number below `10^width`, padded to `width`, is `width`
      digits that read back as that number. */
  lemma PaddedDigits(n: nat, width: nat)
    requires 1 <= width && n < PyText.Pow10(width)
    ensures |Padded(n, width)| == width && PyText.AllDigits(Padded(n, width))
    ensures PyText.ParseInt(Padded(n, width)) == Ok(n)
  {
    ShowNatShort(n, width);
    var s := PyText.ShowNat(n);
    assert s[0] != '-' && s[0] != '+' by { assert PyText.IsDigit(s[0]); }
    PyText.ZFillRoundTrip(n, width);
    PyText.ValueLeadingZeros(width - |s|, s);
  }

  /** The other direction: a file named from a writer below 100 and a page
      below 1000, as the layout pads them, is read back as that writer and
      page. */
  lemma PaddedNameRoundTrip(page: nat, writer: nat, distortion: string)
    requires page < 1000 && writer < 100
    ensures var k := Key(writer, page);
      ParseName(DatasetName(Padded(page, 3), Padded(writer, 2), distortion)) == Ok(Parsed(k, Layout(distortion, k)))
  {
    PaddedDigits(page, 3);
    PaddedDigits(writer, 2);
    DatasetNameRoundTrip(Padded(page, 3), Padded(writer, 2), distortion);
  }
}
