/**
 * The analysis-template table of the summarization service: one row per
 * (category, choice) pair, and the catalogue of category and choice names that
 * `get_analyze_types` derives from it.
 */
module Templates {
  import opened Wrappers
  import opened Seqs

  /** A row of the template table; `modelType` is `None` when the column is empty. */
  datatype Template = Template(
    categoryIndex: int,
    category: string,
    choiceIndex: int,
    choiceName: string,
    prompt: string,
    modelType: Option<string>)

  function CategoryKey(t: Template): int {
    t.categoryIndex
  }

  function CategoryName(t: Template): string {
    t.category
  }

  function ChoiceKey(t: Template): int {
    t.choiceIndex
  }

  function ChoiceName(t: Template): string {
    t.choiceName
  }

  /** The keys of the rows, in row order. */
  function KeysOf(ts: seq<Template>, key: Template -> int): (r: seq<int>)
    ensures |r| == |ts|
    ensures forall i :: 0 <= i < |ts| ==> r[i] == key(ts[i])
  {
    seq(|ts|, i requires 0 <= i < |ts| => key(ts[i]))
  }

  /** `sorted(d.keys())` for a dict filled from the rows. */
  function IndexKeys(ts: seq<Template>, key: Template -> int): (r: seq<int>)
    ensures Increasing(r)
    ensures forall k :: k in r <==> k in KeysOf(ts, key)
  {
    SortedKeys(Dedup(KeysOf(ts, key)))
  }

  /**
   * `d.setdefault(key(t), name(t))` over the rows, then `[d[i] for i in sorted(d.keys())]`:
   * one name per distinct key, in increasing key order, the first row's name for each.
   */
  function NamesByIndex(ts: seq<Template>, key: Template -> int, name: Template -> string): (r: seq<string>)
    ensures |r| == |IndexKeys(ts, key)|
  {
    var m := FirstWins(ts, key, name);
    var ks := IndexKeys(ts, key);
    assert forall p :: 0 <= p < |ks| ==> ks[p] in KeysOf(ts, key);
    seq(|ks|, p requires 0 <= p < |ks| => m[ks[p]])
  }

  /** The category names of `get_analyze_types`. */
  function CategoryCatalogue(ts: seq<Template>): seq<string> {
    NamesByIndex(ts, CategoryKey, CategoryName)
  }

  /** The choice names of `get_analyze_types`. */
  function ChoiceCatalogue(ts: seq<Template>): seq<string> {
    NamesByIndex(ts, ChoiceKey, ChoiceName)
  }

  /** What `get_analyze_types` returns: the category names and the choice names. */
  datatype Catalogue = Catalogue(categories: seq<string>, choices: seq<string>)

  function GetAnalyzeTypes(ts: seq<Template>): Catalogue {
    Catalogue(CategoryCatalogue(ts), ChoiceCatalogue(ts))
  }

  lemma NamesByIndexSpec(ts: seq<Template>, key: Template -> int, name: Template -> string)
    ensures var names := NamesByIndex(ts, key, name);
      var ks := IndexKeys(ts, key);
      && |names| == |ks|
      && (forall k :: k in ks <==> exists i :: 0 <= i < |ts| && key(ts[i]) == k)
      && (forall p, i ::
            (&& 0 <= p < |ks| && 0 <= i < |ts| && key(ts[i]) == ks[p]
             && forall j :: 0 <= j < i ==> key(ts[j]) != ks[p])
            ==> names[p] == name(ts[i]))
  {
    var ks := IndexKeys(ts, key);
    var keys := KeysOf(ts, key);
    forall k
      ensures k in ks <==> exists i :: 0 <= i < |ts| && key(ts[i]) == k
    {
      if k in ks {
        var i :| 0 <= i < |keys| && keys[i] == k;
        assert key(ts[i]) == k;
      }
      if exists i :: 0 <= i < |ts| && key(ts[i]) == k {
        var i :| 0 <= i < |ts| && key(ts[i]) == k;
        assert keys[i] == k;
      }
    }
  }

  /** The category indices of the catalogue: each distinct index once, in increasing order. */
  lemma CategoryKeys(ts: seq<Template>)
    ensures Increasing(IndexKeys(ts, CategoryKey))
    ensures forall k :: k in IndexKeys(ts, CategoryKey) <==> exists i :: 0 <= i < |ts| && ts[i].categoryIndex == k
  {
    NamesByIndexSpec(ts, CategoryKey, CategoryName);
  }

  /**
   * The category names: one per distinct index, in index order, each taken from
   * the first row carrying that index.
   */
  lemma CategoryNames(ts: seq<Template>)
    ensures |CategoryCatalogue(ts)| == |IndexKeys(ts, CategoryKey)|
    ensures forall p, i ::
      (&& 0 <= p < |IndexKeys(ts, CategoryKey)| && 0 <= i < |ts|
       && ts[i].categoryIndex == IndexKeys(ts, CategoryKey)[p]
       && forall j :: 0 <= j < i ==> ts[j].categoryIndex != ts[i].categoryIndex)
      ==> CategoryCatalogue(ts)[p] == ts[i].category
  {
    NamesByIndexSpec(ts, CategoryKey, CategoryName);
  }

  /** The choice indices of the catalogue: each distinct index once, in increasing order. */
  lemma ChoiceKeys(ts: seq<Template>)
    ensures Increasing(IndexKeys(ts, ChoiceKey))
    ensures forall k :: k in IndexKeys(ts, ChoiceKey) <==> exists i :: 0 <= i < |ts| && ts[i].choiceIndex == k
  {
    NamesByIndexSpec(ts, ChoiceKey, ChoiceName);
  }

  /**
   * The choice names: one per distinct index, in index order, each taken from
   * the first row carrying that index.
   */
  lemma ChoiceNames(ts: seq<Template>)
    ensures |ChoiceCatalogue(ts)| == |IndexKeys(ts, ChoiceKey)|
    ensures forall p, i ::
      (&& 0 <= p < |IndexKeys(ts, ChoiceKey)| && 0 <= i < |ts|
       && ts[i].choiceIndex == IndexKeys(ts, ChoiceKey)[p]
       && forall j :: 0 <= j < i ==> ts[j].choiceIndex != ts[i].choiceIndex)
      ==> ChoiceCatalogue(ts)[p] == ts[i].choiceName
  {
    NamesByIndexSpec(ts, ChoiceKey, ChoiceName);
  }
}
