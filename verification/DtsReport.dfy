/**
 What a comparison reports and how: the order of its lists, its verdict, and the property names that
 make a number a reference, each without the functions the comparison is written with.
 */
module DtsReport {
  import opened Wrappers
  import opened Affixes
  import opened Ordering
  import opened DtsText
  import opened DtsTree
  import opened DtsCanonical
  import opened DtsCompare

  // ----- order and verdict -----

  /** The differences stand in path order, and those of one path in the order of their properties. */
  lemma ReportIsSorted(c: Comparison, l: Tree, r: Tree, i: nat, j: nat)
    requires IsComparison(c, l, r)
    ensures i < j < |c.differences| ==>
      var a, b := c.differences[i], c.differences[j];
      || StrLess(a.path, b.path)
      || (&& a.path == b.path && b.property.Some?
          && (a.property.None? || StrLess(a.property.value, b.property.value)))
    ensures i < j < |c.renumbered| ==> StrLess(c.renumbered[i].path, c.renumbered[j].path)
  {
    hide IsDifference, IsRenumbered, IsUnresolved;
    if i < j < |c.differences| {
      assert DifferenceLess(c.differences[i], c.differences[j]);
      NothingIsLess(PropertyText(c.differences[i]));
      EmptyIsFirst(PropertyText(c.differences[j]));
    }
    if i < j < |c.renumbered| {
      assert RenumberingLess(c.renumbered[i], c.renumbered[j]);
    }
  }

  lemma NothingIsLess(s: string)
    ensures !StrLess(s, "")
  {
  }

  lemma EmptyIsFirst(s: string)
    ensures s != "" ==> StrLess("", s)
  {
  }

  predicate Caveats(t: Tree) {
    |t.issues| + |t.unsupported| + |t.duplicatePaths| + |t.duplicateLabels| > 0
  }

  /** The verdict, from whether there is a difference and whether anything is left open. */
  lemma StatusExactly(c: Comparison)
    ensures
      var differ, open := |c.differences| > 0, c.unresolved != {} || Caveats(c.left) || Caveats(c.right);
      && (StatusOf(c) == EQUIVALENT <==> !differ && !open)
      && (StatusOf(c) == INCONCLUSIVE <==> !differ && open)
      && (StatusOf(c) == DIFFERENT <==> differ && !open)
      && (StatusOf(c) == DIFFERENT_INCOMPLETE <==> differ && open)
  {
  }

  // ----- reference names -----

  /** Where the text behind the last hyphen or comma starts. */
  function LastStart(name: string): (k: nat)
    ensures k <= |name|
    ensures k > 0 ==> name[k - 1] in {'-', ','}
    ensures forall i | k <= i < |name| :: name[i] !in {'-', ','}
  {
    if name == [] then 0
    else if name[|name| - 1] in {'-', ','} then |name|
    else LastStart(name[..|name| - 1])
  }

  /** The part of a name behind its last hyphen or comma. */
  function LastPart(name: string): string {
    name[LastStart(name)..]
  }

  lemma EndsExactly(name: string, word: string)
    requires word != "" && '-' !in word && ',' !in word
    ensures LastWord(name, word) <==> LastPart(name) == word
  {
    var k := LastStart(name);
    var n := |name| - |word|;
    if LastPart(name) == word {
      assert name[k..] == word && n == k;
      if k > 0 {
        assert name[k - 1..] == [name[k - 1]] + word;
        assert name[|name| - |"-" + word|..] == name[k - 1..];
      } else {
        assert name == word;
      }
    }
    if LastWord(name, word) {
      LastWordAt(name, word, k);
    }
  }

  lemma LastWordAt(name: string, word: string, k: nat)
    requires word != "" && '-' !in word && ',' !in word && LastWord(name, word) && k == LastStart(name)
    ensures name[k..] == word
  {
    if name == word {
      assert name[0..] == word;
      StartsAt(name, 0, word);
    } else if EndsWith(name, "-" + word) {
      var n := |name| - |word|;
      assert name[n - 1..] == "-" + word && name[n..] == name[n - 1..][1..] && name[n - 1] == name[n - 1..][0];
      StartsAt(name, n, word);
    } else {
      var n := |name| - |word|;
      assert name[n - 1..] == "," + word && name[n..] == name[n - 1..][1..] && name[n - 1] == name[n - 1..][0];
      StartsAt(name, n, word);
    }
  }

  lemma StartsAt(name: string, n: nat, word: string)
    requires n <= |name| && name[n..] == word && (n > 0 ==> name[n - 1] in {'-', ','})
    requires '-' !in word && ',' !in word
    ensures LastStart(name) == n
  {
    hide LastStart;
    forall i | n <= i < |name| ensures name[i] !in {'-', ','} {
      assert name[i] == word[i - n] && word[i - n] in word;
    }
  }

  lemma Hyphened(name: string, word: string, end: string)
    requires end == "-" + word
    ensures EndsWith(name, end) ==> LastWord(name, word)
  {
  }

  /** A longer word that ends in a hyphen and a shorter one adds nothing to it. */
  lemma LongerWord(name: string, long: string, short: string)
    requires |short| < |long| && long[|long| - |short| - 1..] == "-" + short
    ensures LastWord(name, long) ==> LastWord(name, short)
  {
    var end := "-" + short;
    Shorter(name, long, end);
    Shorter(name, "-" + long, end);
    Shorter(name, "," + long, end);
    assert ("-" + long)[|long| - |short|..] == long[|long| - |short| - 1..];
    assert ("," + long)[|long| - |short|..] == long[|long| - |short| - 1..];
  }

  /** `-reset-gpios` and the like end in a shorter word of the same list. */
  lemma LongerEndings(name: string)
    ensures LastWord(name, "reset-gpios") ==> LastWord(name, "gpios")
    ensures LastWord(name, "power-domain") ==> LastWord(name, "domain")
    ensures EndsWith(name, "-supply") ==> LastWord(name, "supply")
    ensures EndsWith(name, "-gpio") ==> LastWord(name, "gpio")
    ensures EndsWith(name, "-gpios") || EndsWith(name, "-reset-gpios") ==> LastWord(name, "gpios")
    ensures EndsWith(name, "-power-domain") ==> LastWord(name, "domain")
  {
    hide LastWord, EndsWith;
    LongerWord(name, "reset-gpios", "gpios");
    LongerWord(name, "power-domain", "domain");
    Hyphened(name, "supply", "-supply");
    Hyphened(name, "gpio", "-gpio");
    Hyphened(name, "gpios", "-gpios");
    Hyphened(name, "reset-gpios", "-reset-gpios");
    Hyphened(name, "power-domain", "-power-domain");
  }

  lemma Shorter(name: string, long: string, short: string)
    requires |short| <= |long| && long[|long| - |short|..] == short
    ensures name == long || EndsWith(name, long) ==> EndsWith(name, short)
  {
    if EndsWith(name, long) {
      assert name[|name| - |long|..] == long;
      assert name[|name| - |short|..] == long[|long| - |short|..];
    }
  }

  /**
   A property is taken to hold references exactly when it has one of these names, starts with
   `pinctrl-`, or ends, after its last hyphen or comma, in one of five words; one final newline is
   overlooked in the last test and for `pinctrl`.
   */
  lemma ReferenceNamesExactly(name: string)
    ensures LooksLikeRef(name) <==>
      || name in {"target", "interrupt-parent", "memory-region", "nvmem-cells", "operating-points-v2", "remote-endpoint",
                  "backlight", "panel", "sound-dai", "link", "links", "ref", "refs",
                  "gpios", "gpio", "clocks", "resets", "phys", "dmas", "iommus", "mboxes", "pwms", "io-channels",
                  "power-domains"}
      || "pinctrl-" <= name
      || EndsInReference(name) || EndsInReference(DropFinalNewline(name))
  {
    PatternExactly(name);
    PatternExactly(DropFinalNewline(name));
    LongerEndings(name);
    hide LastWord, DropFinalNewline, LastPart, EndsWith;
  }

  predicate EndsInReference(name: string) {
    name == "pinctrl" || LastPart(name) in {"supply", "gpio", "gpios", "domain", "domains"}
  }

  lemma PatternExactly(name: string)
    ensures PatternAtEnd(name) <==> EndsInReference(name)
    ensures LastWord(name, "supply") || LastWord(name, "gpio") || LastWord(name, "gpios") || LastWord(name, "domain") ==>
      EndsInReference(name)
  {
    EndsExactly(name, "supply");
    EndsExactly(name, "gpio");
    EndsExactly(name, "gpios");
    EndsExactly(name, "domain");
    EndsExactly(name, "domains");
    LongerEndings(name);
    hide LastWord, LastPart, EndsWith;
  }

  /** A bare number is a reference in every cell of the first names, and in the first cell of the others. */
  lemma ReferencePositionsExactly(name: string, index: nat)
    ensures NumericRefPosition(name, index) <==>
      || "pinctrl-" <= name
      || name in {"target", "interrupt-parent", "memory-region", "nvmem-cells", "operating-points-v2", "remote-endpoint",
                  "backlight", "panel", "sound-dai", "link", "links", "ref", "refs"}
      || (&& index == 0
          && name in {"gpios", "gpio", "clocks", "resets", "phys", "dmas", "iommus", "mboxes", "pwms", "io-channels",
                      "power-domains"})
  {
  }
}
