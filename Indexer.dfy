/** The file indexer (app.py, lines 16-38): the files found under the data
    directory are split into document files and label files, each
    classifiable document is paired with the first label file that carries
    its attributes, and the pairs are stored under `(model_id, k)`. */
module Indexer {
  import opened Wrappers
  import opened Strings
  import opened Paths
  import opened Ordering
  import opened Classifier

  // ---------------------------------------------------------------------
  // Partition of the walked files (lines 16-23)

  /** One directory visited by `os.walk`: its path and the names of its files. */
  datatype WalkStep = WalkStep(root: string, files: seq<string>)

  /** File names reported by a directory walk never contain '/'. */
  predicate WellFormedWalk(walk: seq<WalkStep>)
  {
    forall i, j :: 0 <= i < |walk| && 0 <= j < |walk[i].files| ==> !Contains(walk[i].files[j], "/")
  }

  datatype FileKind = DocumentInfo | TopicRepresentation | Ignored

  /** Which list a file name goes to; the "document_info" test comes first. */
  function KindOf(name: string): FileKind
  {
    if Contains(name, "document_info") then DocumentInfo
    else if Contains(name, "topic_representation") then TopicRepresentation
    else Ignored
  }

  /** The full paths of the files of one directory that are of `kind`, in order. */
  function FilesOfKind(root: string, files: seq<string>, kind: FileKind): seq<string>
    decreases |files|
  {
    if |files| == 0 then []
    else
      var name := files[|files| - 1];
      FilesOfKind(root, files[..|files| - 1], kind) +
      (if KindOf(name) == kind then [JoinPath(root, name)] else [])
  }

  /** The full paths of all walked files of `kind`, in walk order. */
  function Collect(walk: seq<WalkStep>, kind: FileKind): seq<string>
    decreases |walk|
  {
    if |walk| == 0 then []
    else
      var step := walk[|walk| - 1];
      Collect(walk[..|walk| - 1], kind) + FilesOfKind(step.root, step.files, kind)
  }

  /** The loop that fills `doc_files` and `label_files`. */
  method PartitionFiles(walk: seq<WalkStep>) returns (docFiles: seq<string>, labelFiles: seq<string>)
    ensures docFiles == Collect(walk, DocumentInfo)
    ensures labelFiles == Collect(walk, TopicRepresentation)
  {
    docFiles, labelFiles := [], [];
    for i := 0 to |walk|
      invariant docFiles == Collect(walk[..i], DocumentInfo)
      invariant labelFiles == Collect(walk[..i], TopicRepresentation)
    {
      var root, files := walk[i].root, walk[i].files;
      assert files[..0] == [];
      for j := 0 to |files|
        invariant docFiles == Collect(walk[..i], DocumentInfo) + FilesOfKind(root, files[..j], DocumentInfo)
        invariant labelFiles == Collect(walk[..i], TopicRepresentation) + FilesOfKind(root, files[..j], TopicRepresentation)
      {
        var f := files[j];
        var full := JoinPath(root, f);
        if Contains(f, "document_info") {
          docFiles := docFiles + [full];
        } else if Contains(f, "topic_representation") {
          labelFiles := labelFiles + [full];
        }
        assert files[..j + 1][..j] == files[..j];
      }
      assert files[..|files|] == files;
      assert walk[..i + 1][..i] == walk[..i];
    }
    assert walk[..|walk|] == walk;
  }

  /** Walk order is kept: collecting over two parts of a walk concatenates. */
  lemma {:induction false} CollectAppend(w1: seq<WalkStep>, w2: seq<WalkStep>, kind: FileKind)
    ensures Collect(w1 + w2, kind) == Collect(w1, kind) + Collect(w2, kind)
    decreases |w2|
  {
    if |w2| == 0 {
      assert w1 + w2 == w1;
    } else {
      var w := w1 + w2;
      var init, step := w2[..|w2| - 1], w2[|w2| - 1];
      var tail := FilesOfKind(step.root, step.files, kind);
      assert w[..|w| - 1] == w1 + init;
      assert w[|w| - 1] == step;
      CollectAppend(w1, init, kind);
      assert Collect(w, kind) == Collect(w1 + init, kind) + tail;
      assert Collect(w2, kind) == Collect(init, kind) + tail;
    }
  }

  lemma {:induction false} FilesOfKindBasenames(root: string, files: seq<string>, kind: FileKind)
    requires forall j :: 0 <= j < |files| ==> !Contains(files[j], "/")
    ensures forall p :: p in FilesOfKind(root, files, kind) ==> KindOf(Basename(p)) == kind
    decreases |files|
  {
    if |files| > 0 {
      var name := files[|files| - 1];
      FilesOfKindBasenames(root, files[..|files| - 1], kind);
      BasenameOfJoin(root, name);
    }
  }

  lemma {:induction false} FilesOfKindComplete(root: string, files: seq<string>, kind: FileKind, j: nat)
    requires j < |files| && KindOf(files[j]) == kind
    ensures JoinPath(root, files[j]) in FilesOfKind(root, files, kind)
    decreases |files|
  {
    if j < |files| - 1 {
      FilesOfKindComplete(root, files[..|files| - 1], kind, j);
    }
  }

  /** Every collected path is a file of that kind: its base name passes the test. */
  lemma {:induction false} CollectSound(walk: seq<WalkStep>, kind: FileKind)
    requires WellFormedWalk(walk)
    ensures forall p :: p in Collect(walk, kind) ==> KindOf(Basename(p)) == kind
    decreases |walk|
  {
    if |walk| > 0 {
      var step := walk[|walk| - 1];
      var init := walk[..|walk| - 1];
      assert WellFormedWalk(init) by {
        forall i, j | 0 <= i < |init| && 0 <= j < |init[i].files|
          ensures !Contains(init[i].files[j], "/")
        {
          assert init[i] == walk[i];
        }
      }
      CollectSound(init, kind);
      forall j | 0 <= j < |step.files| ensures !Contains(step.files[j], "/") {
        assert step.files[j] == walk[|walk| - 1].files[j];
      }
      FilesOfKindBasenames(step.root, step.files, kind);
    }
  }

  /** Every walked file of a kind is collected under its full path. */
  lemma {:induction false} CollectComplete(walk: seq<WalkStep>, kind: FileKind, i: nat, j: nat)
    requires i < |walk| && j < |walk[i].files| && KindOf(walk[i].files[j]) == kind
    ensures JoinPath(walk[i].root, walk[i].files[j]) in Collect(walk, kind)
    decreases |walk|
  {
    if i == |walk| - 1 {
      FilesOfKindComplete(walk[i].root, walk[i].files, kind, j);
    } else {
      assert walk[..|walk| - 1][i] == walk[i];
      CollectComplete(walk[..|walk| - 1], kind, i, j);
    }
  }

  /** A document file's name contains "document_info"; a label file's name
      does not, and contains "topic_representation"; so no path is in both
      lists. */
  lemma PartitionDisjoint(walk: seq<WalkStep>)
    requires WellFormedWalk(walk)
    ensures forall p :: p in Collect(walk, DocumentInfo) ==> Contains(Basename(p), "document_info")
    ensures forall p :: p in Collect(walk, TopicRepresentation) ==>
              !Contains(Basename(p), "document_info") && Contains(Basename(p), "topic_representation")
    ensures forall p :: p in Collect(walk, DocumentInfo) ==> p !in Collect(walk, TopicRepresentation)
  {
    CollectSound(walk, DocumentInfo);
    CollectSound(walk, TopicRepresentation);
  }

  // ---------------------------------------------------------------------
  // The index (lines 25-35)

  /** The label path test of the `next(...)` generator: polarity, model tag
      and "k=<k>" are looked for anywhere in the full path. */
  predicate LabelMatches(labelPath: string, c: Classification)
  {
    Contains(labelPath, c.polarity) && Contains(labelPath, c.tag) && Contains(labelPath, "k=" + c.k)
  }

  /** `next((l for l in label_files if ...), None)`: the first matching label file. */
  function FirstLabel(labelFiles: seq<string>, c: Classification): (r: Option<string>)
    ensures r.None? <==> forall i :: 0 <= i < |labelFiles| ==> !LabelMatches(labelFiles[i], c)
    ensures r.Some? ==> exists i :: 0 <= i < |labelFiles| && labelFiles[i] == r.value &&
                          LabelMatches(r.value, c) &&
                          forall j :: 0 <= j < i ==> !LabelMatches(labelFiles[j], c)
    decreases |labelFiles|
  {
    if |labelFiles| == 0 then None
    else if LabelMatches(labelFiles[0], c) then Some(labelFiles[0])
    else
      var r := FirstLabel(labelFiles[1..], c);
      assert r.Some? ==> exists i :: 1 <= i < |labelFiles| && labelFiles[i] == r.value &&
                          LabelMatches(r.value, c) &&
                          forall j :: 0 <= j < i ==> !LabelMatches(labelFiles[j], c) by {
        if r.Some? {
          var i :| 0 <= i < |labelFiles[1..]| && labelFiles[1..][i] == r.value &&
                   LabelMatches(r.value, c) &&
                   forall j :: 0 <= j < i ==> !LabelMatches(labelFiles[1..][j], c);
          assert forall j :: 0 <= j < i + 1 ==> !LabelMatches(labelFiles[j], c) by {
            forall j | 0 <= j < i + 1 ensures !LabelMatches(labelFiles[j], c) {
              if j > 0 {
                assert labelFiles[j] == labelFiles[1..][j - 1];
              }
            }
          }
        }
      }
      r
  }

  datatype Entry = Entry(doc: string, labelPath: string)
  type Key = (string, string)
  datatype Slot = Slot(key: Key, entry: Entry)

  /** What one iteration of the index loop stores for a document file, if anything. */
  function DocSlot(doc: string, labelFiles: seq<string>): Option<Slot>
  {
    match Classify(Basename(doc))
    case None => None
    case Some(c) =>
      var labelPath := FirstLabel(labelFiles, c);
      if Truthy(labelPath) then Some(Slot((ModelId(c), c.k), Entry(doc, labelPath.value))) else None
  }

  /** What the loop stores for each document file, in list order. */
  function Slots(docFiles: seq<string>, labelFiles: seq<string>): seq<Option<Slot>>
  {
    seq(|docFiles|, i requires 0 <= i < |docFiles| => DocSlot(docFiles[i], labelFiles))
  }

  /** Dictionary assignment of each present slot in turn: a later slot with
      the same key overwrites an earlier one. */
  function Store(slots: seq<Option<Slot>>): map<Key, Entry>
    decreases |slots|
  {
    if |slots| == 0 then map[]
    else
      var index := Store(slots[..|slots| - 1]);
      match slots[|slots| - 1]
      case None => index
      case Some(s) => index[s.key := s.entry]
  }

  /** The index after the loop over `docFiles`. */
  function IndexOf(docFiles: seq<string>, labelFiles: seq<string>): map<Key, Entry>
  {
    Store(Slots(docFiles, labelFiles))
  }

  /** One more document file stores its slot, if it has one. */
  lemma IndexOfStep(docFiles: seq<string>, labelFiles: seq<string>, i: nat)
    requires i < |docFiles|
    ensures IndexOf(docFiles[..i + 1], labelFiles) ==
              match DocSlot(docFiles[i], labelFiles)
              case None => IndexOf(docFiles[..i], labelFiles)
              case Some(s) => IndexOf(docFiles[..i], labelFiles)[s.key := s.entry]
  {
    var slots := Slots(docFiles[..i + 1], labelFiles);
    assert slots[..i] == Slots(docFiles[..i], labelFiles);
    assert slots[i] == DocSlot(docFiles[i], labelFiles);
  }

  /** The loop that fills `index`. */
  method BuildIndex(docFiles: seq<string>, labelFiles: seq<string>) returns (index: map<Key, Entry>)
    ensures index == IndexOf(docFiles, labelFiles)
  {
    index := map[];
    for i := 0 to |docFiles|
      invariant index == IndexOf(docFiles[..i], labelFiles)
    {
      var doc := docFiles[i];
      var base := Basename(doc);
      var polarity := PolarityOf(base);
      var model := ModelTagOf(base);
      var kMatch := KStringOf(base);
      IndexOfStep(docFiles, labelFiles, i);
      if Truthy(polarity) && Truthy(model) && Truthy(kMatch) {
        var c := Classification(polarity.value, model.value, kMatch.value);
        assert Classify(base) == Some(c);
        var modelId := ModelId(c);
        var labelPath := FirstLabel(labelFiles, c);
        if Truthy(labelPath) {
          index := index[(modelId, kMatch.value) := Entry(doc, labelPath.value)];
        }
      } else {
        assert Classify(base) == None;
      }
    }
    assert docFiles[..|docFiles|] == docFiles;
  }

  predicate HasKey(slot: Option<Slot>, key: Key)
  {
    slot.Some? && slot.value.key == key
  }

  /** A key is stored exactly when some slot carries it. */
  lemma {:induction false} StoreKeys(slots: seq<Option<Slot>>, key: Key)
    ensures key in Store(slots) <==> exists i :: 0 <= i < |slots| && HasKey(slots[i], key)
    decreases |slots|
  {
    if |slots| > 0 {
      var n := |slots| - 1;
      var init := slots[..n];
      StoreKeys(init, key);
      if (exists i :: 0 <= i < |init| && HasKey(init[i], key)) {
        var i :| 0 <= i < |init| && HasKey(init[i], key);
        assert slots[i] == init[i];
      }
      if (exists i :: 0 <= i < |slots| && HasKey(slots[i], key)) {
        var i :| 0 <= i < |slots| && HasKey(slots[i], key);
        if i < n {
          assert init[i] == slots[i];
        }
      }
    }
  }

  /** The entry stored under a key is that of the last slot carrying it. */
  lemma {:induction false} StoreLastWins(slots: seq<Option<Slot>>, i: nat)
    requires i < |slots| && slots[i].Some?
    requires forall j :: i < j < |slots| ==> !HasKey(slots[j], slots[i].value.key)
    ensures slots[i].value.key in Store(slots)
    ensures Store(slots)[slots[i].value.key] == slots[i].value.entry
    decreases |slots|
  {
    var n := |slots| - 1;
    if i < n {
      var init := slots[..n];
      assert init[i] == slots[i];
      forall j | i < j < |init| ensures !HasKey(init[j], init[i].value.key) {
        assert init[j] == slots[j];
      }
      StoreLastWins(init, i);
    }
  }

  /** Every stored entry is that of some slot. */
  lemma {:induction false} StoreOrigin(slots: seq<Option<Slot>>, key: Key)
    requires key in Store(slots)
    ensures Some(Slot(key, Store(slots)[key])) in slots
    decreases |slots|
  {
    var n := |slots| - 1;
    var init := slots[..n];
    if HasKey(slots[n], key) {
      assert slots[n] == Some(Slot(key, Store(slots)[key]));
    } else {
      StoreOrigin(init, key);
      assert Store(slots)[key] == Store(init)[key];
      var i :| 0 <= i < |init| && init[i] == Some(Slot(key, Store(init)[key]));
      assert slots[i] == init[i];
    }
  }

  /** A key is in the index exactly when some document file produces it. */
  lemma IndexKeys(docFiles: seq<string>, labelFiles: seq<string>, key: Key)
    ensures key in IndexOf(docFiles, labelFiles) <==>
              exists i :: 0 <= i < |docFiles| && HasKey(DocSlot(docFiles[i], labelFiles), key)
  {
    var slots := Slots(docFiles, labelFiles);
    StoreKeys(slots, key);
    assert forall i :: 0 <= i < |docFiles| ==> slots[i] == DocSlot(docFiles[i], labelFiles);
  }

  /** The entry stored under a key is the one of the last document file that
      produces the key. */
  lemma IndexLastWriteWins(docFiles: seq<string>, labelFiles: seq<string>, i: nat)
    requires i < |docFiles| && DocSlot(docFiles[i], labelFiles).Some?
    requires forall j :: i < j < |docFiles| ==>
               !HasKey(DocSlot(docFiles[j], labelFiles), DocSlot(docFiles[i], labelFiles).value.key)
    ensures DocSlot(docFiles[i], labelFiles).value.key in IndexOf(docFiles, labelFiles)
    ensures IndexOf(docFiles, labelFiles)[DocSlot(docFiles[i], labelFiles).value.key] ==
              DocSlot(docFiles[i], labelFiles).value.entry
  {
    var slots := Slots(docFiles, labelFiles);
    assert forall j :: 0 <= j < |docFiles| ==> slots[j] == DocSlot(docFiles[j], labelFiles);
    StoreLastWins(slots, i);
  }

  /** Every entry comes from one document file of the list. */
  lemma IndexEntryOrigin(docFiles: seq<string>, labelFiles: seq<string>, key: Key)
    requires key in IndexOf(docFiles, labelFiles)
    ensures IndexOf(docFiles, labelFiles)[key].doc in docFiles
    ensures DocSlot(IndexOf(docFiles, labelFiles)[key].doc, labelFiles) ==
              Some(Slot(key, IndexOf(docFiles, labelFiles)[key]))
  {
    var slots := Slots(docFiles, labelFiles);
    StoreOrigin(slots, key);
    var i :| 0 <= i < |slots| && slots[i] == Some(Slot(key, Store(slots)[key]));
    assert slots[i] == DocSlot(docFiles[i], labelFiles);
  }

  /** An entry `(model_id, k) -> {doc, label}` pairs a classifiable document
      with the first label file in list order that matches its polarity, tag
      and k; the key is made of that classification. */
  lemma IndexEntrySound(docFiles: seq<string>, labelFiles: seq<string>, key: Key)
    requires key in IndexOf(docFiles, labelFiles)
    ensures var e := IndexOf(docFiles, labelFiles)[key];
            && e.doc in docFiles
            && e.labelPath in labelFiles
            && Classify(Basename(e.doc)).Some?
            && var c := Classify(Basename(e.doc)).value;
            && key == (ModelId(c), c.k)
            && FirstLabel(labelFiles, c) == Some(e.labelPath)
            && LabelMatches(e.labelPath, c)
  {
    IndexEntryOrigin(docFiles, labelFiles, key);
  }

  /** Index keys name one of six dataset families and a non-empty k string. */
  lemma IndexKeysKnown(docFiles: seq<string>, labelFiles: seq<string>, key: Key)
    requires key in IndexOf(docFiles, labelFiles)
    ensures key.0 in {"positiveUHC", "positiveLM", "positiveBT", "negativeUHC", "negativeLM", "negativeBT"}
    ensures key.1 != ""
  {
    IndexEntrySound(docFiles, labelFiles, key);
    ModelIdKnown(Basename(IndexOf(docFiles, labelFiles)[key].doc));
  }

  /** Over the files of a walk, an entry's document path names a
      "document_info" file and its label path a "topic_representation" file. */
  lemma IndexOfWalkSound(walk: seq<WalkStep>, key: Key)
    requires WellFormedWalk(walk)
    requires key in IndexOf(Collect(walk, DocumentInfo), Collect(walk, TopicRepresentation))
    ensures var e := IndexOf(Collect(walk, DocumentInfo), Collect(walk, TopicRepresentation))[key];
            Contains(Basename(e.doc), "document_info") &&
            Contains(Basename(e.labelPath), "topic_representation") &&
            !Contains(Basename(e.labelPath), "document_info")
  {
    IndexEntrySound(Collect(walk, DocumentInfo), Collect(walk, TopicRepresentation), key);
    PartitionDisjoint(walk);
  }

  // ---------------------------------------------------------------------
  // How the label test behaves on real paths

  /** The polarity is looked for in the whole label path, so a label file
      under a directory whose path holds the polarity passes that test
      whatever its own name says. */
  lemma PolarityFromDirectory(root: string, name: string, c: Classification)
    requires !StartsWith(name, "/")
    requires Contains(root, c.polarity) && Contains(name, c.tag) && Contains(name, "k=" + c.k)
    ensures LabelMatches(JoinPath(root, name), c)
  {
    if |root| == 0 || root[|root| - 1] == '/' {
      ContainsInPrefix(root, name, c.polarity);
      ContainsInSuffix(root, name, c.tag);
      ContainsInSuffix(root, name, "k=" + c.k);
    } else {
      ContainsInPrefix(root, "/", c.polarity);
      ContainsInPrefix(root + "/", name, c.polarity);
      ContainsInSuffix(root + "/", name, c.tag);
      ContainsInSuffix(root + "/", name, "k=" + c.k);
    }
  }

  /** "k=<k>" is a substring test, so a label carrying a longer k that starts
      with the same digits ("k=10" for k "1") matches too. */
  lemma KPrefixMatches(labelPath: string, c: Classification, more: string)
    requires Contains(labelPath, c.polarity) && Contains(labelPath, c.tag)
    requires Contains(labelPath, "k=" + c.k + more)
    ensures LabelMatches(labelPath, c)
  {
    ContainsLonger(labelPath, "k=" + c.k, more);
  }

  /** Hence, with first-match, a document of k "1" is paired with a "k=10"
      label file listed before its own. */
  lemma KPrefixPicksEarlier(label10: string, label1: string, c: Classification)
    requires Contains(label10, c.polarity) && Contains(label10, c.tag)
    requires Contains(label10, "k=" + c.k + "0")
    ensures FirstLabel([label10, label1], c) == Some(label10)
  {
    KPrefixMatches(label10, c, "0");
  }

  /** A "Brian" document gets the tag "BT", and "BT" is what a label path
      must contain: a path naming "Brian" but not "BT" is never its label. */
  lemma BrianNeedsBT(base: string, labelFiles: seq<string>)
    requires Classify(base).Some?
    requires Contains(base, "Brian") && !Contains(base, "UHC") && !Contains(base, "LM")
    requires forall i :: 0 <= i < |labelFiles| ==> !Contains(labelFiles[i], "BT")
    ensures Classify(base).value.tag == "BT"
    ensures FirstLabel(labelFiles, Classify(base).value) == None
  {
  }

  // ---------------------------------------------------------------------
  // The selectable values (lines 37-38)

  /** `sorted(set(k[0] for k in index))`. */
  ghost function Models(index: map<Key, Entry>): (models: seq<string>)
    ensures forall m :: m in models <==> exists key :: key in index && key.0 == m
    ensures StrictlySorted(models)
  {
    var s := set key | key in index :: key.0;
    assert forall m :: m in s <==> exists key :: key in index && key.0 == m;
    SortedStrings(s)
  }

  /** `sorted(set(k[1] for k in index), key=int)`; `int()` must accept
      every k string. */
  ghost function KValues(index: map<Key, Entry>): (kvals: seq<string>)
    requires forall key :: key in index ==> IsDigits(key.1)
    ensures forall k :: k in kvals <==> exists key :: key in index && key.1 == k
    ensures forall i, j :: 0 <= i < j < |kvals| ==>
              kvals[i] != kvals[j] && DecimalValue(kvals[i]) <= DecimalValue(kvals[j])
  {
    var s := set key | key in index :: key.1;
    assert forall k :: k in s <==> exists key :: key in index && key.1 == k;
    SortedByValue(s)
  }

  /** The model list of a built index holds only the six known model ids. */
  lemma ModelsKnown(docFiles: seq<string>, labelFiles: seq<string>)
    ensures forall m :: m in Models(IndexOf(docFiles, labelFiles)) ==>
              m in {"positiveUHC", "positiveLM", "positiveBT", "negativeUHC", "negativeLM", "negativeBT"}
  {
    var index := IndexOf(docFiles, labelFiles);
    forall m | m in Models(index)
      ensures m in {"positiveUHC", "positiveLM", "positiveBT", "negativeUHC", "negativeLM", "negativeBT"}
    {
      var key :| key in index && key.0 == m;
      IndexKeysKnown(docFiles, labelFiles, key);
    }
  }
}
