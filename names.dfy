/**
 * The names under which the randomized experiment reports its classifiers.
 * The console listing turns every ',' of a classifier's description into ';'
 * and collapses every neural network to one name; the LaTeX table replaces a
 * description by a short, human-readable algorithm name and puts the three
 * accuracy summaries of one classifier on one row.
 */
module ModelNames {
  import opened Wrappers

  /** `s` begins with `p`, as Python's `str.startswith`. */
  predicate StartsWith(s: string, p: string) {
    |p| <= |s| && s[..|p|] == p
  }

  /** A mismatch at position `i` of `p` rules `p` out as a prefix of `s`. */
  lemma NotStartsWith(s: string, p: string, i: nat)
    requires i < |p| && (i >= |s| || s[i] != p[i])
    ensures !StartsWith(s, p)
  {
    if |p| <= |s| {
      assert s[..|p|][i] == s[i];
    }
  }

  /** `t` occurs somewhere in `s`, as Python's `t in s` on strings. */
  predicate Contains(s: string, t: string)
    decreases |s|
  {
    StartsWith(s, t) || (|s| > 0 && Contains(s[1..], t))
  }

  /** Every character of an occurrence of `t` is a character of `s`. */
  lemma {:induction false} ContainsHasChars(s: string, t: string, c: char)
    ensures Contains(s, t) && c in t ==> c in s
    decreases |s|
  {
    if Contains(s, t) && c in t {
      if StartsWith(s, t) {
        assert s[..|t|] == t;
        var j :| 0 <= j < |t| && t[j] == c;
        assert s[j] == c;
      } else {
        ContainsHasChars(s[1..], t, c);
        assert c in s[1..];
        var j :| 0 <= j < |s[1..]| && s[1..][j] == c;
        assert s[j + 1] == c;
      }
    }
  }

  /** An occurrence inside a prefix of `s` is an occurrence inside `s`. */
  lemma {:induction false} ContainsInPrefix(s: string, p: string, t: string)
    requires StartsWith(s, p)
    ensures Contains(p, t) ==> Contains(s, t)
    decreases |p|
  {
    if Contains(p, t) {
      if StartsWith(p, t) {
        assert s[..|t|] == p[..|t|];
      } else {
        assert StartsWith(s[1..], p[1..]) by {
          assert s[1..][..|p[1..]|] == s[..|p|][1..];
        }
        ContainsInPrefix(s[1..], p[1..], t);
      }
    }
  }

  // ---------------------------------------------------------------------------
  // The console listing (print_results)
  // ---------------------------------------------------------------------------

  /** `s.replace(',', ';')`. */
  function SwapCommas(s: string): (r: string)
    ensures |r| == |s| && ',' !in r
    ensures forall i :: 0 <= i < |s| ==> r[i] == (if s[i] == ',' then ';' else s[i])
  {
    if s == [] then [] else [if s[0] == ',' then ';' else s[0]] + SwapCommas(s[1..])
  }

  /** A string without commas is left as it is. */
  lemma SwapCommasNoComma(s: string)
    requires ',' !in s
    ensures SwapCommas(s) == s
  {
    var r := SwapCommas(s);
    forall i | 0 <= i < |s| ensures r[i] == s[i] {
      assert s[i] != ',';
    }
  }

  /** Swapping commas does not change whether a string begins with a comma-free,
    * semicolon-free prefix. */
  lemma SwapCommasPrefix(s: string, p: string)
    requires ',' !in p && ';' !in p
    ensures StartsWith(SwapCommas(s), p) <==> StartsWith(s, p)
  {
    var r := SwapCommas(s);
    if |p| <= |s| {
      forall i | 0 <= i < |p| ensures r[i] == p[i] <==> s[i] == p[i] {
        assert p[i] != ',' && p[i] != ';';
      }
      if r[..|p|] == p {
        assert forall i :: 0 <= i < |p| ==> s[..|p|][i] == p[i];
      }
      if s[..|p|] == p {
        assert forall i :: 0 <= i < |p| ==> r[..|p|][i] == p[i];
      }
    }
  }

  /** The name under which `print_results` lists a classifier's description. */
  function PrintName(key: string): (name: string)
    ensures ',' !in name
    ensures StartsWith(key, "NeuralNetwork") ==> name == "NeuralNetwork"
    ensures !StartsWith(key, "NeuralNetwork") ==>
      |name| == |key| &&
      forall i :: 0 <= i < |key| ==> name[i] == (if key[i] == ',' then ';' else key[i])
  {
    var swapped := SwapCommas(key);
    SwapCommasPrefix(key, "NeuralNetwork");
    if StartsWith(swapped, "NeuralNetwork") then "NeuralNetwork" else swapped
  }

  /** Listing a listed name again changes nothing. */
  lemma PrintNameIdempotent(key: string)
    ensures PrintName(PrintName(key)) == PrintName(key)
  {
    var name := PrintName(key);
    if StartsWith(key, "NeuralNetwork") {
      assert "NeuralNetwork"[..|"NeuralNetwork"|] == "NeuralNetwork";
      SwapCommasNoComma("NeuralNetwork");
    } else {
      SwapCommasPrefix(key, "NeuralNetwork");
      assert name == SwapCommas(key);
      SwapCommasNoComma(name);
      assert !StartsWith(SwapCommas(name), "NeuralNetwork");
    }
  }

  /** One console line: a listed name with the mean and standard deviation of
    * its accuracies. */
  datatype Line = Line(name: string, mean: real, std: real)

  /** `print_results(d)`: one line per key of `d`, in the dictionary's order
    * `order`. */
  method PrintResults(order: seq<string>, d: map<string, seq<real>>,
                      mean: seq<real> -> real, std: seq<real> -> real)
    returns (lines: seq<Line>)
    requires forall k :: k in order ==> k in d
    ensures |lines| == |order|
    ensures forall i :: 0 <= i < |order| ==>
      lines[i] == Line(PrintName(order[i]), mean(d[order[i]]), std(d[order[i]]))
  {
    lines := [];
    for n := 0 to |order|
      invariant |lines| == n
      invariant forall i :: 0 <= i < n ==>
        lines[i] == Line(PrintName(order[i]), mean(d[order[i]]), std(d[order[i]]))
    {
      var key := order[n];
      var acc := d[key];
      var name := SwapCommas(key);
      if StartsWith(name, "NeuralNetwork") {
        name := "NeuralNetwork";
      }
      lines := lines + [Line(name, mean(acc), std(acc))];
    }
  }

  // ---------------------------------------------------------------------------
  // The LaTeX table
  // ---------------------------------------------------------------------------

  /** `key.split('(', 1)[0]`: the text before the first '(', or all of `key`. */
  function Head(key: string): (h: string)
    ensures StartsWith(key, h) && '(' !in h
    ensures |h| < |key| ==> key[|h|] == '('
  {
    if key == [] || key[0] == '(' then [] else [key[0]] + Head(key[1..])
  }

  /** The renaming of a classifier's class name in the table. */
  function ShortName(h: string): string {
    if h == "LinearDiscriminantAnalysis" then "LDA"
    else if h == "RandomForestClassifier" then "Random Forests"
    else if StartsWith(h, "KN") then "Nearest neighbor"
    else if StartsWith(h, "Neural") then "Neural Network"
    else h
  }

  /** The algorithm name the table shows for a classifier's description: every
    * linear-kernel description is a linear SVM, every other SVC an RBF SVM,
    * and any other description is known by its renamed class name. */
  function TableNameOf(key: string): string {
    if Contains(key, "kernel='linear'") then "Linear SVM"
    else if Contains(key, "SVC") then "RBF SVM"
    else ShortName(Head(key))
  }

  /** No fixed label starts with a prefix that the table renames. */
  lemma NoRenameOfLabels()
    ensures !StartsWith("Linear SVM", "KN") && !StartsWith("Linear SVM", "Neural")
    ensures !StartsWith("RBF SVM", "KN") && !StartsWith("RBF SVM", "Neural")
    ensures !StartsWith("LDA", "KN") && !StartsWith("LDA", "Neural")
    ensures !StartsWith("Random Forests", "KN") && !StartsWith("Random Forests", "Neural")
    ensures !StartsWith("Nearest neighbor", "KN") && !StartsWith("Nearest neighbor", "Neural")
    ensures !StartsWith("Neural Network", "KN")
  {
    NotStartsWith("Linear SVM", "KN", 0);
    NotStartsWith("Linear SVM", "Neural", 0);
    NotStartsWith("RBF SVM", "KN", 0);
    NotStartsWith("RBF SVM", "Neural", 0);
    NotStartsWith("LDA", "KN", 0);
    NotStartsWith("LDA", "Neural", 0);
    NotStartsWith("Random Forests", "KN", 0);
    NotStartsWith("Random Forests", "Neural", 0);
    NotStartsWith("Nearest neighbor", "KN", 0);
    NotStartsWith("Nearest neighbor", "Neural", 2);
    NotStartsWith("Neural Network", "KN", 0);
  }

  /** The successive reassignments of `name` in the table loop. */
  method TableName(key: string) returns (name: string)
    ensures name == TableNameOf(key)
  {
    name := Head(key);
    if Contains(key, "SVC") {
      name := "RBF SVM";
    }
    if Contains(key, "kernel='linear'") {
      name := "Linear SVM";
    }
    NoRenameOfLabels();
    if name == "LinearDiscriminantAnalysis" {
      name := "LDA";
    }
    if name == "RandomForestClassifier" {
      name := "Random Forests";
    }
    if StartsWith(name, "KN") {
      name := "Nearest neighbor";
    }
    if StartsWith(name, "Neural") {
      name := "Neural Network";
    }
  }

  /** No table name contains a '('. */
  lemma TableNameNoParen(key: string)
    ensures '(' !in TableNameOf(key)
  {
    if !Contains(key, "kernel='linear'") && !Contains(key, "SVC") {
      var h := Head(key);
      if ShortName(h) != h {
        LabelChars(ShortName(h));
      }
    } else {
      LabelChars(TableNameOf(key));
    }
  }

  /** Neither an SVC nor a linear kernel occurs in a table name that came from
    * a class name. */
  lemma HeadNoSvc(key: string)
    requires !Contains(key, "kernel='linear'") && !Contains(key, "SVC")
    ensures !Contains(Head(key), "kernel='linear'") && !Contains(Head(key), "SVC")
  {
    ContainsInPrefix(key, Head(key), "kernel='linear'");
    ContainsInPrefix(key, Head(key), "SVC");
  }

  /** A name without '(' is its own head. */
  lemma {:induction false} HeadWhole(s: string)
    requires '(' !in s
    ensures Head(s) == s
  {
    if s != [] {
      assert '(' !in s[1..] by {
        assert forall j :: 0 <= j < |s[1..]| ==> s[1..][j] == s[j + 1];
      }
      HeadWhole(s[1..]);
      assert s == [s[0]] + s[1..];
    }
  }

  /** None of the fixed labels holds a quote, a 'C' or a '('. */
  lemma LabelChars(tag: string)
    requires tag in ["Linear SVM", "RBF SVM", "LDA", "Random Forests",
                     "Nearest neighbor", "Neural Network"]
    ensures '\'' !in tag && 'C' !in tag && '(' !in tag
  {
    if tag == "Linear SVM" {
    } else if tag == "RBF SVM" {
    } else if tag == "LDA" {
    } else if tag == "Random Forests" {
    } else if tag == "Nearest neighbor" {
    } else {
    }
  }

  /** A name that is neither an SVC nor a linear kernel, holds no '(' and is
    * not renamed is its own table name. */
  lemma {:induction false} FixedName(tag: string)
    requires '\'' !in tag && 'C' !in tag && '(' !in tag && ShortName(tag) == tag
    ensures TableNameOf(tag) == tag
  {
    ContainsHasChars(tag, "kernel='linear'", '\'');
    ContainsHasChars(tag, "SVC", 'C');
    HeadWhole(tag);
  }

  /** The fixed labels are their own table names. */
  lemma LabelsAreFixed(tag: string)
    requires tag in ["Linear SVM", "RBF SVM", "LDA", "Random Forests",
                     "Nearest neighbor", "Neural Network"]
    ensures TableNameOf(tag) == tag
  {
    NoRenameOfLabels();
    LabelChars(tag);
    FixedName(tag);
  }

  /** Renaming a table name again changes nothing. */
  lemma TableNameIdempotent(key: string)
    ensures TableNameOf(TableNameOf(key)) == TableNameOf(key)
  {
    var name := TableNameOf(key);
    if Contains(key, "kernel='linear'") || Contains(key, "SVC") {
      LabelsAreFixed(name);
    } else {
      var h := Head(key);
      HeadNoSvc(key);
      if name != h {
        LabelsAreFixed(name);
      } else {
        assert Head(h) == h;
      }
    }
  }

  /** Mean and standard deviation of one list of accuracies. */
  datatype Summary = Summary(mean: real, std: real)

  /** One table row: the algorithm name and its break-level, bootstrapped and
    * fragment-level summaries. */
  datatype Row = Row(name: string, breakLevel: Summary, boot: Summary, fragLevel: Summary)

  function RowOf(key: string, breakAcc: map<string, seq<real>>, bootAcc: map<string, seq<real>>,
                 fragAcc: map<string, seq<real>>, mean: seq<real> -> real, std: seq<real> -> real): Row
    requires key in breakAcc && key in bootAcc && key in fragAcc
  {
    Row(TableNameOf(key),
        Summary(mean(breakAcc[key]), std(breakAcc[key])),
        Summary(mean(bootAcc[key]), std(bootAcc[key])),
        Summary(mean(fragAcc[key]), std(fragAcc[key])))
  }

  /** `order[i]` is the first key of `order` missing from `bootAcc` or `fragAcc`. */
  predicate FirstMissing(order: seq<string>, i: int, bootAcc: map<string, seq<real>>,
                         fragAcc: map<string, seq<real>>)
    requires 0 <= i < |order|
  {
    (order[i] !in bootAcc || order[i] !in fragAcc) &&
    forall j :: 0 <= j < i ==> order[j] in bootAcc && order[j] in fragAcc
  }

  /** The table loop: one row per key of `break_acc`, in its order `order`; the
    * first key missing from `boot_acc` or `frag_acc` stops the loop. */
  method TableRows(order: seq<string>, breakAcc: map<string, seq<real>>,
                   bootAcc: map<string, seq<real>>, fragAcc: map<string, seq<real>>,
                   mean: seq<real> -> real, std: seq<real> -> real)
    returns (r: Result<seq<Row>, string>)
    requires forall k :: k in order ==> k in breakAcc
    ensures r.Success? <==> forall k :: k in order ==> k in bootAcc && k in fragAcc
    ensures r.Success? ==> |r.value| == |order|
    ensures r.Success? ==> forall i :: 0 <= i < |order| ==>
      r.value[i] == RowOf(order[i], breakAcc, bootAcc, fragAcc, mean, std)
    ensures r.Failure? ==>
      exists i :: 0 <= i < |order| && FirstMissing(order, i, bootAcc, fragAcc) && order[i] == r.error
  {
    var rows := [];
    for n := 0 to |order|
      invariant |rows| == n
      invariant forall j :: 0 <= j < n ==> order[j] in bootAcc && order[j] in fragAcc
      invariant forall j :: 0 <= j < n ==>
        rows[j] == RowOf(order[j], breakAcc, bootAcc, fragAcc, mean, std)
    {
      var key := order[n];
      var name := TableName(key);
      var brk := breakAcc[key];
      if key !in bootAcc || key !in fragAcc {
        return Failure(key);
      }
      var boot := bootAcc[key];
      var frag := fragAcc[key];
      rows := rows + [Row(name, Summary(mean(brk), std(brk)), Summary(mean(boot), std(boot)),
                          Summary(mean(frag), std(frag)))];
    }
    return Success(rows);
  }
}
