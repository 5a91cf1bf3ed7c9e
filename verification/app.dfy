/** The page's list of dropped files: dropping appends a batch, removing
    filters one position out, and each file's editor is keyed by its name
    and position. */
module App {
  import Decimal

  /** A dropped file; only its name is read by the list logic. */
  datatype File = File(name: string, size: nat)

  /** A dropped batch goes after the files already there, in its own order. */
  function DropFiles(files: seq<File>, dropped: seq<File>): (r: seq<File>)
    ensures |r| == |files| + |dropped|
    ensures forall i :: 0 <= i < |files| ==> r[i] == files[i]
    ensures forall j :: 0 <= j < |dropped| ==> r[|files| + j] == dropped[j]
  {
    files + dropped
  }

  /** Dropping nothing changes nothing. */
  lemma DropNothing(files: seq<File>)
    ensures DropFiles(files, []) == files
  {
  }

  /** The list without position `index`; positions that do not exist leave
      it as it is. */
  function Without(files: seq<File>, index: int): (r: seq<File>)
    ensures 0 <= index < |files| ==> |r| == |files| - 1
    ensures 0 <= index < |files| ==> forall k :: 0 <= k < index ==> r[k] == files[k]
    ensures 0 <= index < |files| ==> forall k :: index <= k < |r| ==> r[k] == files[k + 1]
    ensures 0 <= index < |files| ==> multiset(r) + multiset{files[index]} == multiset(files)
    ensures !(0 <= index < |files|) ==> r == files
  {
    if 0 <= index < |files| then
      assert files == files[..index] + [files[index]] + files[index + 1..];
      files[..index] + files[index + 1..]
    else files
  }

  /** Removal as the page does it: keep every file whose position differs
      from `index`, in order. */
  method RemoveFile(files: seq<File>, index: int) returns (r: seq<File>)
    ensures r == Without(files, index)
  {
    r := [];
    var i := 0;
    while i < |files|
      invariant 0 <= i <= |files|
      invariant r == if 0 <= index < i then files[..index] + files[index + 1..i] else files[..i]
    {
      if i != index {
        r := r + [files[i]];
      }
      i := i + 1;
    }
    assert files[..|files|] == files;
  }

  /** Removing one of a new batch leaves the earlier files alone. */
  lemma RemoveDropped(files: seq<File>, dropped: seq<File>, j: int)
    requires 0 <= j < |dropped|
    ensures Without(DropFiles(files, dropped), |files| + j) == DropFiles(files, Without(dropped, j))
  {
  }

  /** Removing an earlier file leaves a new batch as it was, at the end. */
  lemma RemoveEarlier(files: seq<File>, dropped: seq<File>, i: int)
    requires 0 <= i < |files|
    ensures Without(DropFiles(files, dropped), i) == DropFiles(Without(files, i), dropped)
  {
  }

  /** The React key of the editor at position `index`: the file name, a
      '-', and the position in decimal. */
  function Key(file: File, index: nat): string {
    file.name + "-" + Decimal.Show(index)
  }

  /** Two strings that end in a separator and a separator-free tail agree
      on both parts when they are equal. */
  lemma SplitAtLast(a: string, x: string, b: string, y: string, sep: char)
    requires sep !in x && sep !in y
    requires a + [sep] + x == b + [sep] + y
    ensures a == b && x == y
  {
    var s := a + [sep] + x;
    assert s == b + [sep] + y;
    // No separator follows either prefix's separator, so both sit at the
    // same, last, separator position.
    assert forall k :: |a| < k < |s| ==> s[k] == x[k - |a| - 1];
    assert forall k :: |b| < k < |s| ==> s[k] == y[k - |b| - 1];
    assert s[|a|] == sep && s[|b|] == sep;
    assert |a| == |b|;
    assert a == s[..|a|] && b == s[..|b|];
    assert x == s[|a| + 1..] && y == s[|b| + 1..];
  }

  /** A key determines both the file name and the position it was made from. */
  lemma KeyInjective(f: File, i: nat, g: File, j: nat)
    requires Key(f, i) == Key(g, j)
    ensures f.name == g.name && i == j
  {
    Decimal.ShowHasNo(i, '-');
    Decimal.ShowHasNo(j, '-');
    SplitAtLast(f.name, Decimal.Show(i), g.name, Decimal.Show(j), '-');
    Decimal.ShowInjective(i, j);
  }

  /** The keys of one render, in list order; no two are alike, even when
      files share a name. */
  function Keys(files: seq<File>): (keys: seq<string>)
    ensures |keys| == |files|
    ensures forall i :: 0 <= i < |files| ==> keys[i] == Key(files[i], i)
    ensures forall i, j :: 0 <= i < j < |keys| ==> keys[i] != keys[j]
  {
    var keys := seq(|files|, i requires 0 <= i < |files| => Key(files[i], i));
    forall i, j | 0 <= i < j < |keys|
      ensures keys[i] != keys[j]
    {
      if keys[i] == keys[j] {
        KeyInjective(files[i], i, files[j], j);
      }
    }
    keys
  }

  /** After a removal every later file moves up one place and its key
      changes with it: the file that was at `k` is now keyed with `k - 1`. */
  lemma RemoveRekeys(files: seq<File>, index: int, k: int)
    requires 0 <= index < k < |files|
    ensures Keys(Without(files, index))[k - 1] == Key(files[k], k - 1)
    ensures Keys(Without(files, index))[k - 1] != Keys(files)[k]
  {
    if Key(files[k], k - 1) == Key(files[k], k) {
      KeyInjective(files[k], k - 1, files[k], k);
    }
  }

  /** The editor right after a removed one inherits the removed one's key
      exactly when the two files have the same name; React then keeps the
      removed file's editor, with its settings and preview, for the next
      file. */
  lemma KeyReusedAfterRemove(files: seq<File>, index: int)
    requires 0 <= index < |files| - 1
    ensures Keys(Without(files, index))[index] == Keys(files)[index]
        <==> files[index + 1].name == files[index].name
  {
    if Keys(Without(files, index))[index] == Keys(files)[index] {
      KeyInjective(files[index + 1], index, files[index], index);
    }
  }
}
