/**
 * The string helpers of the command-line front end: get_directory,
 * get_filename and get_options_vector (the comma splitter behind --dsco
 * and --lco). A C string is modelled as its characters before the
 * terminating NUL; std::string::npos is modelled as -1. Each `char` of a
 * modelled string stands for one byte of the path, as std::string indices
 * count bytes: a character that takes several bytes in UTF-8 is several
 * `char`s here.
 */
module CommandLine {

  datatype Result<T> = Success(value: T) | Failure(error: string)

  /**
   * std::string::find_last_of with a one-character set: the index of the
   * last `c` in `s`, or -1 when `s` has none.
   */
  function LastIndexOf(s: string, c: char): (r: int)
    ensures -1 <= r < |s|
    ensures r >= 0 ==> s[r] == c
    ensures forall k :: r < k < |s| ==> s[k] != c
    decreases |s|
  {
    if |s| == 0 then -1
    else if s[|s| - 1] == c then |s| - 1
    else LastIndexOf(s[..|s| - 1], c)
  }

  /** `pat` occurs in `s` starting at index k. */
  predicate OccursAt(s: string, pat: string, k: int) {
    0 <= k <= |s| - |pat| && s[k..k + |pat|] == pat
  }

  /**
   * std::string::rfind: the start of the last occurrence of `pat` in `s`,
   * or -1 when there is none.
   */
  function RFind(s: string, pat: string): (r: int)
    ensures r == -1 || OccursAt(s, pat, r)
    ensures forall k :: r < k ==> !OccursAt(s, pat, k)
  {
    RFindAt(s, pat, |s| - |pat|)
  }

  /** The last occurrence of `pat` starting at index `k` or before. */
  function RFindAt(s: string, pat: string, k: int): (r: int)
    requires k <= |s| - |pat|
    ensures r == -1 || (r <= k && OccursAt(s, pat, r))
    ensures forall j :: r < j <= k ==> !OccursAt(s, pat, j)
    decreases k + 1
  {
    if k < 0 then -1
    else if s[k..k + |pat|] == pat then k
    else RFindAt(s, pat, k - 1)
  }

  // ---------------------------------------------------------------------
  // get_directory and get_filename

  /**
   * get_directory: "." when the path has no '/', otherwise the path up to
   * and including its last '/'.
   */
  function GetDirectory(path: string): (r: string)
    ensures '/' !in path ==> r == "."
    ensures '/' in path ==> && |r| >= 1 && r <= path && r[|r| - 1] == '/'
                            && '/' !in path[|r|..]
  {
    var last := LastIndexOf(path, '/');
    if last == -1 then "." else path[..last + 1]
  }

  /**
   * get_filename as written: substr(begin + 1, end) with `begin` the last
   * '/' and `end` the start of the last ".shp". The second argument of
   * substr is a character count, so at most `end` characters after the
   * slash are kept (all of them when ".shp" is absent). A path without '/'
   * is an error.
   */
  function GetFilename(path: string): (r: Result<string>)
    ensures '/' !in path <==> r.Failure?
    ensures r.Success? ==>
              var rest := path[LastIndexOf(path, '/') + 1..];
              var end := RFind(path, ".shp");
              && r.value <= rest
              && '/' !in r.value
              && |r.value| == (if end == -1 || end >= |rest| then |rest| else end)
  {
    var begin := LastIndexOf(path, '/');
    var end := RFind(path, ".shp");
    if begin == -1 then Failure("Output path is a directory but should be a file.")
    else
      var rest := path[begin + 1..];
      var count := if end == -1 || end >= |rest| then |rest| else end;
      Success(rest[..count])
  }

  /**
   * What get_filename evidently means to compute: the name after the last
   * '/', without the ".shp" suffix when the last ".shp" lies after that
   * slash. A path without '/' is an error.
   */
  function FileStem(path: string): (r: Result<string>)
    ensures '/' !in path <==> r.Failure?
    ensures r.Success? ==> r.value <= path[LastIndexOf(path, '/') + 1..] && '/' !in r.value
  {
    var begin := LastIndexOf(path, '/');
    var end := RFind(path, ".shp");
    if begin == -1 then Failure("Output path is a directory but should be a file.")
    else if end > begin then Success(path[begin + 1..end])
    else Success(path[begin + 1..])
  }

  /** The last '/' of dir + "/" + name, when name has none, is the one added. */
  lemma LastSlashOfJoinedPath(dir: string, name: string)
    requires '/' !in name
    ensures LastIndexOf(dir + "/" + name, '/') == |dir|
  {
    var path := dir + "/" + name;
    assert path[|dir|] == '/';
  }

  /** The directory of dir + "/" + name, when name has no '/', is dir + "/". */
  lemma DirectoryOfJoinedPath(dir: string, name: string)
    requires '/' !in name
    ensures GetDirectory(dir + "/" + name) == dir + "/"
  {
    LastSlashOfJoinedPath(dir, name);
    assert (dir + "/" + name)[..|dir| + 1] == dir + "/";
  }

  /** The last ".shp" of a path ending in ".shp" is that suffix. */
  lemma LastShpIsSuffix(prefix: string)
    ensures RFind(prefix + ".shp", ".shp") == |prefix|
  {
    var path := prefix + ".shp";
    assert OccursAt(path, ".shp", |prefix|);
  }

  /** FileStem strips the directory and the ".shp" suffix. */
  lemma FileStemOfShapefile(dir: string, base: string)
    requires '/' !in base
    ensures FileStem(dir + "/" + base + ".shp") == Success(base)
  {
    var path := dir + "/" + base + ".shp";
    assert path == dir + "/" + (base + ".shp");
    LastSlashOfJoinedPath(dir, base + ".shp");
    LastShpIsSuffix(dir + "/" + base);
    assert path[|dir| + 1..|path| - 4] == base;
  }

  /**
   * get_filename as written keeps the ".shp" suffix whenever the directory
   * part has 3 or more characters: the start index of ".shp" is then at
   * least the length of what follows the slash.
   */
  lemma GetFilenameKeepsSuffix(dir: string, base: string)
    requires '/' !in base && |dir| >= 3
    ensures GetFilename(dir + "/" + base + ".shp") == Success(base + ".shp")
  {
    var path := dir + "/" + base + ".shp";
    assert path == dir + "/" + (base + ".shp");
    LastSlashOfJoinedPath(dir, base + ".shp");
    LastShpIsSuffix(dir + "/" + base);
    assert path[|dir| + 1..] == base + ".shp";
    assert RFind(path, ".shp") == |dir| + 1 + |base|;
    assert (base + ".shp")[..|base| + 4] == base + ".shp";
  }

  /** get_filename as written on "a/b.shp" gives "b.s" where "b" is meant. */
  lemma GetFilenameTruncates()
    ensures GetFilename("a/b.shp") == Success("b.s")
    ensures FileStem("a/b.shp") == Success("b")
  {
    LastSlashOfJoinedPath("a", "b.shp");
    assert "a" + "/" + "b.shp" == "a/b.shp";
    LastShpIsSuffix("a/b");
    assert "a/b" + ".shp" == "a/b.shp";
    FileStemOfShapefile("a", "b");
    assert "a" + "/" + "b" + ".shp" == "a/b.shp";
    assert "a/b.shp"[2..] == "b.shp";
    assert "b.shp"[..3] == "b.s";
  }

  // ---------------------------------------------------------------------
  // get_options_vector

  /**
   * std::strchr(s + from, ','), with the terminator as "not found": the
   * first comma at index `from` or later, or |s| when there is none.
   */
  function NextComma(s: string, from: nat): (r: nat)
    requires from <= |s|
    ensures from <= r <= |s|
    ensures r < |s| ==> s[r] == ','
    ensures forall k :: from <= k < r ==> s[k] != ','
    decreases |s| - from
  {
    if from == |s| then |s|
    else if s[from] == ',' then from
    else NextComma(s, from + 1)
  }

  /**
   * The items after the separator at `p` (or none when p is the end): each
   * runs from just after one comma to the next comma or the end.
   */
  function ItemsAfter(s: string, p: nat): seq<string>
    requires p <= |s|
    decreases |s| - p
  {
    if p == |s| then []
    else
      var q := NextComma(s, p + 1);
      [s[p + 1..q]] + ItemsAfter(s, q)
  }

  /**
   * The items get_options_vector produces: none for "", otherwise a first
   * item up to the first comma at index 1 or later (a comma at index 0
   * belongs to the first item), then the items between later commas.
   */
  function OptionsOf(s: string): seq<string> {
    if |s| == 0 then []
    else
      var p := NextComma(s, 1);
      [s[..p]] + ItemsAfter(s, p)
  }

  /** get_options_vector: the pointer walk from comma to comma. */
  method GetOptionsVector(s: string) returns (options: seq<string>)
    ensures options == OptionsOf(s)
  {
    options := [];
    var lastPos := 0;
    var pos := 0;
    while pos != |s|
      invariant 0 <= pos <= |s| && lastPos == pos
      invariant pos == 0 ==> options == []
      invariant pos > 0 ==> (pos < |s| ==> s[pos] == ',') && options + ItemsAfter(s, pos) == OptionsOf(s)
      decreases |s| - pos
    {
      pos := NextComma(s, pos + 1);
      if lastPos == 0 {
        options := options + [s[..pos]];
      } else {
        assert ItemsAfter(s, lastPos) == [s[lastPos + 1..pos]] + ItemsAfter(s, pos);
        options := options + [s[lastPos + 1..pos]];
      }
      lastPos := pos;
    }
    if pos > 0 {
      assert options + [] == options;
    }
  }

  /** The items joined with ",". */
  function Join(items: seq<string>): string {
    if |items| == 0 then "" else items[0] + JoinTail(items[1..])
  }

  /** Joining a first item and more items. */
  lemma JoinCons(first: string, rest: seq<string>)
    ensures Join([first] + rest) == first + JoinTail(rest)
  {
    assert ([first] + rest)[1..] == rest;
  }

  /** Each item preceded by ",". */
  function JoinTail(items: seq<string>): string {
    if |items| == 0 then "" else "," + items[0] + JoinTail(items[1..])
  }

  /**
   * A split of a non-empty option string: at least one item, no comma in
   * any item but the first, none in the first after its first character,
   * and a non-empty first item when others follow it.
   */
  predicate WellSplit(items: seq<string>) {
    && |items| >= 1
    && (forall j :: 1 <= j < |items[0]| ==> items[0][j] != ',')
    && (|items| > 1 ==> |items[0]| >= 1)
    && forall k :: 1 <= k < |items| ==> ',' !in items[k]
  }

  /** The items after a separator, joined back with their commas, are the rest of the string. */
  lemma {:induction false} JoinTailItemsAfter(s: string, p: nat)
    requires p <= |s| && (p < |s| ==> s[p] == ',')
    ensures JoinTail(ItemsAfter(s, p)) == s[p..]
    decreases |s| - p
  {
    if p < |s| {
      var q := NextComma(s, p + 1);
      var items := ItemsAfter(s, p);
      JoinTailItemsAfter(s, q);
      assert items[0] == s[p + 1..q] && items[1..] == ItemsAfter(s, q);
      assert s[p..] == [','] + s[p + 1..q] + s[q..];
    }
  }

  /** Joining the items of get_options_vector with "," gives back its input. */
  lemma OptionsRoundTrip(s: string)
    ensures Join(OptionsOf(s)) == s
  {
    if |s| > 0 {
      var p := NextComma(s, 1);
      JoinTailItemsAfter(s, p);
      JoinCons(s[..p], ItemsAfter(s, p));
      assert s[..p] + s[p..] == s;
    }
  }

  /** No item after a separator holds a comma, and there is one per comma. */
  lemma {:induction false} ItemsAfterShape(s: string, p: nat)
    requires p <= |s| && (p < |s| ==> s[p] == ',')
    ensures forall k :: 0 <= k < |ItemsAfter(s, p)| ==> ',' !in ItemsAfter(s, p)[k]
    ensures |ItemsAfter(s, p)| == multiset(s[p..])[',']
    decreases |s| - p
  {
    if p < |s| {
      var q := NextComma(s, p + 1);
      var items := ItemsAfter(s, p);
      ItemsAfterShape(s, q);
      assert items == [s[p + 1..q]] + ItemsAfter(s, q);
      assert ',' !in s[p + 1..q];
      assert s[p..] == [','] + s[p + 1..q] + s[q..];
      assert multiset(s[p..]) == multiset([',']) + multiset(s[p + 1..q]) + multiset(s[q..]);
    }
  }

  /**
   * get_options_vector returns nothing for "", and otherwise a well-formed
   * split with one item more than there are commas at index 1 or later.
   */
  lemma OptionsShape(s: string)
    ensures |s| == 0 ==> OptionsOf(s) == []
    ensures |s| > 0 ==> WellSplit(OptionsOf(s)) && |OptionsOf(s)| == 1 + multiset(s[1..])[',']
  {
    if |s| > 0 {
      var p := NextComma(s, 1);
      var items := OptionsOf(s);
      ItemsAfterShape(s, p);
      assert items[0] == s[..p] && items[1..] == ItemsAfter(s, p);
      forall k | 1 <= k < |items| ensures ',' !in items[k] {
        assert items[k] == ItemsAfter(s, p)[k - 1];
      }
      assert s[1..] == s[1..p] + s[p..];
      assert multiset(s[1..]) == multiset(s[1..p]) + multiset(s[p..]);
      assert ',' !in s[1..p];
    }
  }

  /** Comma-free items, joined with their commas, can only be the items after that separator. */
  lemma {:induction false} ItemsAfterUnique(s: string, p: nat, rest: seq<string>)
    requires p <= |s| && (p < |s| ==> s[p] == ',')
    requires forall k :: 0 <= k < |rest| ==> ',' !in rest[k]
    requires JoinTail(rest) == s[p..]
    ensures rest == ItemsAfter(s, p)
    decreases |s| - p
  {
    if |rest| > 0 {
      var r0 := rest[0];
      var tail := JoinTail(rest[1..]);
      var q := p + 1 + |r0|;
      assert s[p..] == [','] + r0 + tail;
      assert q <= |s|;
      assert s[p + 1..q] == r0;
      assert s[q..] == tail;
      forall k | p + 1 <= k < q ensures s[k] != ',' {
        assert s[k] == r0[k - (p + 1)];
      }
      if q < |s| {
        assert |rest[1..]| > 0;
        assert tail[0] == ',';
        assert s[q] == tail[0];
      }
      assert NextComma(s, p + 1) == q;
      forall k | 0 <= k < |rest[1..]| ensures ',' !in rest[1..][k] {
        assert rest[1..][k] == rest[k + 1];
      }
      ItemsAfterUnique(s, q, rest[1..]);
      assert rest == [r0] + rest[1..];
    } else {
      assert |s[p..]| == 0;
    }
  }

  /**
   * The items of get_options_vector are the only well-formed split that
   * joins back to a non-empty input.
   */
  lemma OptionsUnique(s: string, items: seq<string>)
    requires |s| > 0 && WellSplit(items) && Join(items) == s
    ensures items == OptionsOf(s)
  {
    var first := items[0];
    var p := |first|;
    var tail := JoinTail(items[1..]);
    assert s == first + tail;
    forall k | 1 <= k < p ensures s[k] != ',' {
      assert s[k] == first[k];
    }
    if |items| > 1 {
      assert tail[0] == ',';
      assert s[p] == tail[0];
      assert p >= 1;
    } else {
      assert tail == "";
    }
    assert NextComma(s, 1) == p;
    assert s[p..] == tail && s[..p] == first;
    forall k | 0 <= k < |items[1..]| ensures ',' !in items[1..][k] {
      assert items[1..][k] == items[k + 1];
    }
    ItemsAfterUnique(s, p, items[1..]);
    assert items == [first] + items[1..];
  }

  /** Two key=value options separated by a comma. */
  lemma OptionsTwoItems()
    ensures OptionsOf("a=1,b=2") == ["a=1", "b=2"]
  {
    JoinCons("b=2", []);
    JoinCons("a=1", ["b=2"]);
    assert ["a=1"] + ["b=2"] == ["a=1", "b=2"];
    OptionsUnique("a=1,b=2", ["a=1", "b=2"]);
  }

  /** Consecutive commas and a trailing comma give empty items. */
  lemma OptionsEmptyItems()
    ensures OptionsOf("a,,b") == ["a", "", "b"]
    ensures OptionsOf("a,") == ["a", ""]
  {
    JoinCons("", ["b"]);
    JoinCons("a", ["", "b"]);
    assert ["a"] + ["", "b"] == ["a", "", "b"];
    OptionsUnique("a,,b", ["a", "", "b"]);
    JoinCons("a", [""]);
    assert ["a"] + [""] == ["a", ""];
    OptionsUnique("a,", ["a", ""]);
  }

  /** A leading comma stays inside the first item. */
  lemma OptionsLeadingComma()
    ensures OptionsOf(",a") == [",a"]
  {
    JoinCons(",a", []);
    assert [",a"] + [] == [",a"];
    OptionsUnique(",a", [",a"]);
  }
}
