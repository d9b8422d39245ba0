/**
 * The small `.env` reader: `KEY=VALUE` lines, blank lines and `#` comments
 * skipped, and the two entry points that read a file into a map or into the
 * environment without overriding what is already set. The file system is a
 * map from path to contents.
 */
module Dotenv {
  import opened Wrappers
  import opened Strings
  import opened Seqs

  datatype Entry = Entry(key: string, value: string)

  function EntryKey(e: Entry): string {
    e.key
  }

  function EntryValue(e: Entry): string {
    e.value
  }

  predicate IsQuote(c: char) {
    c == '"'
  }

  predicate IsEquals(c: char) {
    c == '='
  }

  /** The entry a line holds: none for a blank line, a comment or a line without "="; split at the first "=". */
  function ParseLine(line: string): (r: Option<Entry>)
    ensures r.Some? <==> !IsBlank(line) && Strip(line)[0] != '#' && '=' in Strip(line)
    ensures r.Some? ==> IsStripped(r.value.key) && '=' !in r.value.key
    ensures r.Some? && |r.value.value| > 0 ==> !IsQuote(r.value.value[0]) && !IsQuote(r.value.value[|r.value.value| - 1])
  {
    var stripped := Strip(line);
    if stripped == "" || stripped[0] == '#' || '=' !in stripped then None
    else
      var i := IndexOf(stripped, '=');
      assert NoneSatisfy(stripped[..i], IsEquals);
      StripKeepsAbsence(stripped[..i], IsEquals);
      Some(Entry(Strip(stripped[..i]), StripBy(Strip(stripped[i + 1..]), IsQuote)))
  }

  /** A key a line can carry: not empty, stripped, not a comment, without "=" or a line break. */
  predicate IsKey(k: string) {
    k != "" && IsStripped(k) && k[0] != '#' && NoneSatisfy(k, IsEquals) && NoneSatisfy(k, IsLineBreak)
  }

  /** A value a line can carry: stripped, not quoted at either end, without a line break. */
  predicate IsValue(v: string) {
    IsStripped(v) && (|v| > 0 ==> !IsQuote(v[0]) && !IsQuote(v[|v| - 1])) && NoneSatisfy(v, IsLineBreak)
  }

  /** The line `KEY=VALUE`. */
  function Render(e: Entry): string {
    e.key + "=" + e.value
  }

  /** The line of a well-formed entry is stripped, and its first "=" ends the key. */
  lemma RenderShape(e: Entry)
    requires IsKey(e.key) && IsValue(e.value)
    ensures Strip(Render(e)) == Render(e)
    ensures '=' in Render(e) && IndexOf(Render(e), '=') == |e.key|
    ensures Render(e)[..|e.key|] == e.key && Render(e)[|e.key| + 1..] == e.value
  {
    var line := Render(e);
    var k := |e.key|;
    assert line[k] == '=';
    assert IsStripped(line) by {
      assert !IsSpace('=');
      assert line[0] == e.key[0];
    }
    StripOfStripped(line);
    assert NoneSatisfy(line[..k], IsEquals) by {
      assert line[..k] == e.key;
    }
    IndexOfIsFirst(line, '=', k);
    assert line[k + 1..] == e.value;
  }

  /** Writing an entry as a line and reading the line back gives the entry. */
  lemma ParseRender(e: Entry)
    requires IsKey(e.key) && IsValue(e.value)
    ensures ParseLine(Render(e)) == Some(e)
  {
    var line := Render(e);
    RenderShape(e);
    assert line[0] != '#';
    StripOfStripped(e.key);
    StripOfStripped(e.value);
    StripByOfClean(e.value, IsQuote);
    assert ParseLine(line) == Some(Entry(Strip(line[..|e.key|]), StripBy(Strip(line[|e.key| + 1..]), IsQuote)));
  }

  /** `[v for x in xs if (v := f(x)) is not None]`: the present results, in order. */
  function Collect<T>(xs: seq<string>, f: string -> Option<T>): (r: seq<T>)
    ensures |r| <= |xs|
    decreases |xs|
  {
    if |xs| == 0 then []
    else
      var rest := Collect(xs[1..], f);
      match f(xs[0])
      case None => rest
      case Some(v) => [v] + rest
  }

  /** When `f` gives a result for every item, `Collect` is the list of those results. */
  lemma {:induction false} CollectAll<T>(xs: seq<string>, f: string -> Option<T>, ys: seq<T>)
    requires |xs| == |ys| && forall k :: 0 <= k < |xs| ==> f(xs[k]) == Some(ys[k])
    ensures Collect(xs, f) == ys
    decreases |xs|
  {
    if |xs| > 0 {
      CollectAll(xs[1..], f, ys[1..]);
    }
  }

  /** The entries of the lines, in order. */
  function Entries(lines: seq<string>): (r: seq<Entry>)
    ensures |r| <= |lines|
  {
    Collect(lines, ParseLine)
  }

  /** `_read_dotenv`: the entries of the text's lines, a later key overriding an earlier one. */
  function ReadDotenv(text: string): (r: map<string, string>)
    ensures forall k :: k in r <==> exists e :: e in Entries(Lines(text)) && e.key == k
  {
    var es := Entries(Lines(text));
    var r := LastWins(es, EntryKey, EntryValue);
    assert forall e :: e in es ==> e.key in r by {
      forall e | e in es
        ensures e.key in r
      {
        var i :| 0 <= i < |es| && es[i] == e;
      }
    }
    r
  }

  /** The lines of a list of entries. */
  function RenderAll(es: seq<Entry>): (r: seq<string>)
    ensures |r| == |es| && forall k :: 0 <= k < |es| ==> r[k] == Render(es[k])
  {
    seq(|es|, k requires 0 <= k < |es| => Render(es[k]))
  }

  predicate WellFormed(es: seq<Entry>) {
    forall k :: 0 <= k < |es| ==> IsKey(es[k].key) && IsValue(es[k].value)
  }

  lemma EntriesOfRendered(es: seq<Entry>)
    requires WellFormed(es)
    ensures Entries(RenderAll(es)) == es
  {
    var lines := RenderAll(es);
    forall k | 0 <= k < |lines|
      ensures ParseLine(lines[k]) == Some(es[k])
    {
      ParseRender(es[k]);
    }
    CollectAll(lines, ParseLine, es);
  }

  /** The line of a well-formed entry is not empty and has no line break. */
  lemma RenderOneLine(e: Entry)
    requires IsKey(e.key) && IsValue(e.value)
    ensures Render(e) != "" && NoneSatisfy(Render(e), IsLineBreak)
  {
    var line := Render(e);
    forall j | 0 <= j < |line|
      ensures !IsLineBreak(line[j])
    {
      if j < |e.key| {
        assert line[j] == e.key[j];
      } else if j > |e.key| {
        assert line[j] == e.value[j - |e.key| - 1];
      }
    }
  }

  /**
   * A file written one `KEY=VALUE` line per entry reads back as those entries,
   * each key with the value of its last line.
   */
  lemma ReadRendered(es: seq<Entry>)
    requires WellFormed(es)
    ensures ReadDotenv(JoinWith("\n", RenderAll(es))) == LastWins(es, EntryKey, EntryValue)
  {
    var lines := RenderAll(es);
    forall k | 0 <= k < |lines|
      ensures lines[k] != "" && NoneSatisfy(lines[k], IsLineBreak)
    {
      RenderOneLine(es[k]);
    }
    LinesOfJoin(lines);
    EntriesOfRendered(es);
  }

  /** `Path(dotenv_path or ".env")`. */
  function DotenvPath(dotenvPath: Option<string>): string {
    if dotenvPath.None? || dotenvPath.value == "" then ".env" else dotenvPath.value
  }

  /** `env.setdefault(key, value)` for every entry: keys already set keep their values. */
  function SetDefaults(env: map<string, string>, values: map<string, string>): (r: map<string, string>)
    ensures r.Keys == env.Keys + values.Keys
    ensures forall k :: k in env ==> r[k] == env[k]
    ensures forall k :: k in values && k !in env ==> r[k] == values[k]
  {
    map k | k in env.Keys + values.Keys :: if k in env then env[k] else values[k]
  }

  /** `dotenv_values`: the file's entries, or nothing for a missing file. */
  function DotenvValues(files: map<string, string>, dotenvPath: Option<string>): (r: map<string, string>)
    ensures DotenvPath(dotenvPath) !in files ==> r == map[]
  {
    var path := DotenvPath(dotenvPath);
    if path !in files then map[] else ReadDotenv(files[path])
  }

  // ---------------------------------------------------------------------------
  // Loading into the environment

  /** The keys of `_read_dotenv(...)`, each once, in the order its first line gives them. */
  function KeyOrder(text: string): (r: seq<string>)
    ensures Distinct(r)
    ensures forall k :: k in r <==> k in ReadDotenv(text)
  {
    var es := Entries(Lines(text));
    var keys := KeysOf(es);
    KeysOfRead(text);
    Dedup(keys)
  }

  /** The keys of the entries, in order. */
  function KeysOf(es: seq<Entry>): (r: seq<string>)
    ensures |r| == |es| && forall i :: 0 <= i < |es| ==> r[i] == es[i].key
  {
    seq(|es|, i requires 0 <= i < |es| => es[i].key)
  }

  /** The keys of a text's entries are the keys `_read_dotenv` returns. */
  lemma KeysOfRead(text: string)
    ensures forall k :: k in KeysOf(Entries(Lines(text))) <==> k in ReadDotenv(text)
  {
    KeysOfHas(Entries(Lines(text)));
  }

  /** A key is among the keys of some entries exactly when one of them has it. */
  lemma KeysOfHas(es: seq<Entry>)
    ensures forall k :: k in KeysOf(es) <==> exists e :: e in es && e.key == k
  {
    var keys := KeysOf(es);
    forall k
      ensures k in keys <==> exists e :: e in es && e.key == k
    {
      if k in keys {
        var j :| 0 <= j < |keys| && keys[j] == k;
        assert es[j] in es;
      }
      if exists e :: e in es && e.key == k {
        var e :| e in es && e.key == k;
        var j :| 0 <= j < |es| && es[j] == e;
        assert keys[j] == k;
      }
    }
  }

  predicate DistinctKeys(es: seq<Entry>) {
    forall i, j :: 0 <= i < j < |es| ==> es[i].key != es[j].key
  }

  /** `_read_dotenv(...).items()`: each key once, at its first line, with the value of its last line. */
  function Items(text: string): (r: seq<Entry>)
    ensures DistinctKeys(r)
    ensures forall e :: e in r <==> e.key in ReadDotenv(text) && e.value == ReadDotenv(text)[e.key]
  {
    InOrder(ReadDotenv(text), KeyOrder(text))
  }

  /** The entries of `values`, listed in the order of `order`. */
  function InOrder(values: map<string, string>, order: seq<string>): (r: seq<Entry>)
    requires Distinct(order)
    requires forall k :: k in order <==> k in values
    ensures DistinctKeys(r)
    ensures forall e :: e in r <==> e.key in values && e.value == values[e.key]
  {
    var r := seq(|order|, i requires 0 <= i < |order| => Entry(order[i], values[order[i]]));
    forall e: Entry | e.key in values && e.value == values[e.key]
      ensures e in r
    {
      var i :| 0 <= i < |order| && order[i] == e.key;
      assert r[i] == e;
    }
    r
  }

  /**
   * What `os.putenv` accepts: a non-empty name, and no NUL character in the
   * name or the value. Otherwise it raises: `ValueError` for a NUL character,
   * and `OSError` for an empty name, which `setenv` refuses. ("=" in a name is
   * refused too, but no key read from a line contains one.)
   */
  predicate Settable(key: string, value: string) {
    key != "" && '\0' !in key && '\0' !in value
  }

  /** `setdefault` raises for this entry: its key is not set yet and cannot be. */
  predicate Refused(env: map<string, string>, e: Entry) {
    e.key !in env && !Settable(e.key, e.value)
  }

  /** The environment a run ended with, whether it finished or raised. */
  function Final(r: Result<map<string, string>, map<string, string>>): map<string, string> {
    match r
    case Ok(m) => m
    case Err(m) => m
  }

  /**
   * The loop of `load_dotenv`: `os.environ.setdefault(key, value)` for each
   * entry in turn. The first refused entry raises (`Err`), and the variables
   * set before it stay set.
   */
  function SetDefaultsInOrder(env: map<string, string>, items: seq<Entry>): (r: Result<map<string, string>, map<string, string>>)
    ensures forall k :: k in env ==> k in Final(r) && Final(r)[k] == env[k]
    decreases |items|
  {
    if |items| == 0 then Ok(env)
    else
      var e := items[|items| - 1];
      match SetDefaultsInOrder(env, items[..|items| - 1])
      case Err(m) => Err(m)
      case Ok(m) =>
        if e.key in m then Ok(m)
        else if Settable(e.key, e.value) then Ok(m[e.key := e.value])
        else Err(m)
  }

  function KeySet(es: seq<Entry>): set<string> {
    set e | e in es :: e.key
  }

  /** `m` is `env` after `setdefault` of every entry of `done`. */
  predicate Applied(env: map<string, string>, done: seq<Entry>, m: map<string, string>) {
    && m.Keys == env.Keys + KeySet(done)
    && (forall k :: k in env ==> m[k] == env[k])
    && (forall e :: e in done && e.key !in env ==> m[e.key] == e.value)
  }

  /**
   * What the loop does with distinct keys: it raises exactly when some entry
   * is refused; if it finishes, every entry was applied; if it raises, the
   * entries before the first refused one were applied and nothing else.
   */
  predicate LoopOutcome(env: map<string, string>, items: seq<Entry>, r: Result<map<string, string>, map<string, string>>) {
    && (r.Err? <==> exists i :: 0 <= i < |items| && Refused(env, items[i]))
    && (r.Ok? ==> Applied(env, items, r.value))
    && (r.Err? ==> exists n :: 0 <= n < |items| && FirstRefusal(env, items, n) && Applied(env, items[..n], r.error))
  }

  /** The entry at `n` is the first one refused. */
  predicate FirstRefusal(env: map<string, string>, items: seq<Entry>, n: nat)
    requires n < |items|
  {
    Refused(env, items[n]) && forall i :: 0 <= i < n ==> !Refused(env, items[i])
  }

  lemma {:induction false} SetDefaultsInOrderSpec(env: map<string, string>, items: seq<Entry>)
    requires DistinctKeys(items)
    ensures LoopOutcome(env, items, SetDefaultsInOrder(env, items))
    decreases |items|
  {
    if |items| == 0 {
      assert KeySet(items) == {};
    } else {
      var init := items[..|items| - 1];
      var e := items[|items| - 1];
      assert DistinctKeys(init);
      SetDefaultsInOrderSpec(env, init);
      LoopStep(env, init, e, SetDefaultsInOrder(env, init));
      assert init + [e] == items;
    }
  }

  /** The loop's outcome after one more entry, from its outcome before it. */
  lemma LoopStep(env: map<string, string>, init: seq<Entry>, e: Entry, r: Result<map<string, string>, map<string, string>>)
    requires DistinctKeys(init + [e])
    requires LoopOutcome(env, init, r)
    ensures LoopOutcome(env, init + [e],
      match r
      case Err(m) => Err(m)
      case Ok(m) =>
        if e.key in m then Ok(m)
        else if Settable(e.key, e.value) then Ok(m[e.key := e.value])
        else Err(m))
  {
    var items := init + [e];
    assert forall i :: 0 <= i < |init| ==> items[i] == init[i];
    match r
    case Err(m) =>
      var n :| 0 <= n < |init| && FirstRefusal(env, init, n) && Applied(env, init[..n], m);
      assert items[..n] == init[..n];
      assert FirstRefusal(env, items, n);
    case Ok(m) =>
      NotEarlier(items, |init|);
      assert items[..|init|] == init;
      AppliedSnoc(env, init, e, m);
      if e.key !in m && !Settable(e.key, e.value) {
        assert FirstRefusal(env, items, |init|);
      }
  }

  /** With distinct keys, the key at `n` is not among the keys before it. */
  lemma NotEarlier(items: seq<Entry>, n: nat)
    requires DistinctKeys(items) && n < |items|
    ensures items[n].key !in KeySet(items[..n])
  {
    forall x | x in items[..n]
      ensures x.key != items[n].key
    {
      var i :| 0 <= i < n && items[..n][i] == x;
    }
  }

  /** One more `setdefault` after the entries of `init`. */
  lemma AppliedSnoc(env: map<string, string>, init: seq<Entry>, e: Entry, m: map<string, string>)
    requires Applied(env, init, m) && e.key !in KeySet(init)
    ensures e.key in m ==> e.key in env && Applied(env, init + [e], m)
    ensures e.key !in m ==> Applied(env, init + [e], m[e.key := e.value])
  {
    assert KeySet(init + [e]) == KeySet(init) + {e.key};
  }

  /** The outcome of `load_dotenv`: its result with the environment after it, or the error it raises. */
  datatype Loaded = Loaded(env: map<string, string>, found: bool) | Raised(env: map<string, string>)

  /** `load_dotenv`: false and nothing set for a missing file; otherwise the file's entries are set by default in turn. */
  function LoadDotenv(env: map<string, string>, files: map<string, string>, dotenvPath: Option<string>): (r: Loaded)
    ensures DotenvPath(dotenvPath) !in files ==> r == Loaded(env, false)
    ensures forall k :: k in env ==> k in r.env && r.env[k] == env[k]
  {
    var path := DotenvPath(dotenvPath);
    if path !in files then Loaded(env, false)
    else
      match SetDefaultsInOrder(env, Items(files[path]))
      case Ok(m) => Loaded(m, true)
      case Err(m) => Raised(m)
  }

  /**
   * Loading reports whether the file exists; it raises exactly when the file
   * has a new key the environment refuses, and then leaves that key unset;
   * it never changes a variable already set and sets nothing but the file's
   * keys; a load that finishes sets every new key to the value
   * `dotenv_values` reads, and loading again changes nothing.
   */
  lemma LoadDotenvSpec(env: map<string, string>, files: map<string, string>, dotenvPath: Option<string>)
    ensures var r := LoadDotenv(env, files, dotenvPath);
      var values := DotenvValues(files, dotenvPath);
      && (r.Loaded? && r.found <==> DotenvPath(dotenvPath) in files && r.Loaded?)
      && (r.Raised? <==> exists k :: k in values && k !in env && !Settable(k, values[k]))
      && (r.Raised? ==> exists k :: k in values && k !in env && !Settable(k, values[k]) && k !in r.env)
      && (forall k :: k in env ==> k in r.env && r.env[k] == env[k])
      && (forall k :: k in r.env && k !in env ==> k in values && r.env[k] == values[k])
      && (r.Loaded? ==> r.env == SetDefaults(env, values))
      && (r.Loaded? ==> LoadDotenv(r.env, files, dotenvPath) == r)
  {
    var path := DotenvPath(dotenvPath);
    if path !in files {
      assert SetDefaults(env, map[]) == env;
    } else {
      var text := files[path];
      var values := ReadDotenv(text);
      var items := Items(text);
      assert DotenvValues(files, dotenvPath) == values;
      LoadItems(env, items, values);
      var r := SetDefaultsInOrder(env, items);
      assert LoadDotenv(env, files, dotenvPath) == if r.Ok? then Loaded(r.value, true) else Raised(r.error);
      if r.Ok? {
        LoadItemsAgain(r.value, items);
        assert LoadDotenv(r.value, files, dotenvPath) == Loaded(r.value, true);
      }
    }
  }

  /** `load_dotenv` on an existing file, in terms of the file's entries and their map. */
  lemma LoadItems(env: map<string, string>, items: seq<Entry>, values: map<string, string>)
    requires DistinctKeys(items)
    requires forall e :: e in items <==> e.key in values && e.value == values[e.key]
    ensures var r := SetDefaultsInOrder(env, items);
      && (r.Err? <==> exists k :: k in values && k !in env && !Settable(k, values[k]))
      && (r.Err? ==> exists k :: k in values && k !in env && !Settable(k, values[k]) && k !in r.error)
      && (forall k :: k in Final(r) && k !in env ==> k in values && Final(r)[k] == values[k])
      && (r.Ok? ==> r.value == SetDefaults(env, values))
  {
    SetDefaultsInOrderSpec(env, items);
    RefusedItems(env, items, values);
    match SetDefaultsInOrder(env, items)
    case Ok(m) =>
      AppliedAll(env, items, values, m);
    case Err(m) =>
      var n :| 0 <= n < |items| && FirstRefusal(env, items, n) && Applied(env, items[..n], m);
      NotEarlier(items, n);
      assert items[n] in items;
      forall k | k in m && k !in env
        ensures k in values && m[k] == values[k]
      {
        var x :| x in items[..n] && x.key == k;
        assert x in items;
      }
  }

  /** Running the loop again over the same entries changes nothing. */
  lemma LoadItemsAgain(env: map<string, string>, items: seq<Entry>)
    requires DistinctKeys(items)
    requires forall e :: e in items ==> e.key in env
    ensures SetDefaultsInOrder(env, items) == Ok(env)
  {
    SetDefaultsInOrderSpec(env, items);
    AppliedNothing(env, items, SetDefaultsInOrder(env, items).value);
  }

  /** Some entry is refused exactly when some new key of the file cannot be set. */
  lemma RefusedItems(env: map<string, string>, items: seq<Entry>, values: map<string, string>)
    requires forall e :: e in items <==> e.key in values && e.value == values[e.key]
    ensures (exists i :: 0 <= i < |items| && Refused(env, items[i]))
        <==> exists k :: k in values && k !in env && !Settable(k, values[k])
  {
    if exists k :: k in values && k !in env && !Settable(k, values[k]) {
      var k :| k in values && k !in env && !Settable(k, values[k]);
      var e := Entry(k, values[k]);
      assert e in items;
      var i :| 0 <= i < |items| && items[i] == e;
      assert Refused(env, items[i]);
    }
    if exists i :: 0 <= i < |items| && Refused(env, items[i]) {
      var i :| 0 <= i < |items| && Refused(env, items[i]);
      assert items[i] in items;
    }
  }

  /** Applying every entry of the file is `SetDefaults` of its map. */
  lemma AppliedAll(env: map<string, string>, items: seq<Entry>, values: map<string, string>, m: map<string, string>)
    requires forall e :: e in items <==> e.key in values && e.value == values[e.key]
    requires Applied(env, items, m)
    ensures m == SetDefaults(env, values)
  {
    assert KeySet(items) == values.Keys by {
      forall k | k in values
        ensures k in KeySet(items)
      {
        assert Entry(k, values[k]) in items;
      }
    }
    forall k | k in m
      ensures m[k] == SetDefaults(env, values)[k]
    {
      if k !in env {
        assert Entry(k, values[k]) in items;
      }
    }
  }

  /** Applying entries whose keys are all set already changes nothing. */
  lemma AppliedNothing(env: map<string, string>, items: seq<Entry>, m: map<string, string>)
    requires forall e :: e in items ==> e.key in env
    requires Applied(env, items, m)
    ensures m == env
  {
  }
}
