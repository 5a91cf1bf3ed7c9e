/** The name offered for a downloaded result: "resized-", then the part of
    the original file name before its first '.', then '.', then the
    selected format's name. The stem is what JavaScript's `split('.')[0]`
    yields, so `Split` models that string method and the stem is defined
    through it. */
module FileName {
  import opened Options
  import Formats

  const Prefix: string := "resized-"

  /** JavaScript's String.prototype.split with a one-character separator:
      the pieces between consecutive separators, in order; the empty string
      splits into one empty piece. */
  function Split(s: string, sep: char): (pieces: seq<string>)
    ensures |pieces| >= 1
    ensures forall i :: 0 <= i < |pieces| ==> sep !in pieces[i]
    decreases |s|
  {
    if |s| == 0 then [""]
    else
      var rest := Split(s[1..], sep);
      if s[0] == sep then [""] + rest
      else [[s[0]] + rest[0]] + rest[1..]
  }

  /** The inverse of `Split`: the pieces glued with the separator. */
  function Join(pieces: seq<string>, sep: char): string
    requires |pieces| >= 1
    decreases |pieces|
  {
    if |pieces| == 1 then pieces[0] else pieces[0] + [sep] + Join(pieces[1..], sep)
  }

  /** Splitting loses nothing: the pieces glue back to the original. */
  lemma {:induction false} JoinSplit(s: string, sep: char)
    ensures Join(Split(s, sep), sep) == s
    decreases |s|
  {
    if |s| > 0 {
      var rest := Split(s[1..], sep);
      JoinSplit(s[1..], sep);
      if s[0] == sep {
        assert Split(s, sep)[1..] == rest;
      } else if |rest| == 1 {
        assert Split(s, sep) == [[s[0]] + rest[0]];
      } else {
        var p := Split(s, sep);
        assert p[1..] == rest[1..];
        assert Join(rest, sep) == rest[0] + [sep] + Join(rest[1..], sep);
      }
    }
  }

  /** Gluing separator-free pieces and splitting again gives the pieces back. */
  lemma {:induction false} SplitJoin(pieces: seq<string>, sep: char)
    requires |pieces| >= 1
    requires forall i :: 0 <= i < |pieces| ==> sep !in pieces[i]
    ensures Split(Join(pieces, sep), sep) == pieces
    decreases |pieces|
  {
    if |pieces| == 1 {
      SplitFree(pieces[0], sep);
    } else {
      SplitJoin(pieces[1..], sep);
      SplitPrefix(pieces[0], Join(pieces[1..], sep), sep);
      assert [pieces[0]] + pieces[1..] == pieces;
    }
  }

  /** A string without the separator is a single piece. */
  lemma {:induction false} SplitFree(s: string, sep: char)
    requires sep !in s
    ensures Split(s, sep) == [s]
    decreases |s|
  {
    if |s| > 0 {
      SplitFree(s[1..], sep);
      assert [s[0]] + s[1..] == s;
    }
  }

  /** A separator-free head followed by the separator becomes its own piece. */
  lemma {:induction false} SplitPrefix(head: string, tail: string, sep: char)
    requires sep !in head
    ensures Split(head + [sep] + tail, sep) == [head] + Split(tail, sep)
    decreases |head|
  {
    var s := head + [sep] + tail;
    if |head| == 0 {
      assert s[1..] == tail;
    } else {
      assert s[1..] == head[1..] + [sep] + tail;
      SplitPrefix(head[1..], tail, sep);
      assert [head[0]] + head[1..] == head;
    }
  }

  /** The first piece is the longest separator-free prefix: it is a prefix,
      and if it is not all of `s` the separator follows it. */
  lemma {:induction false} SplitHead(s: string, sep: char)
    ensures Split(s, sep)[0] <= s
    ensures |Split(s, sep)[0]| < |s| ==> s[|Split(s, sep)[0]|] == sep
    decreases |s|
  {
    if |s| > 0 && s[0] != sep {
      SplitHead(s[1..], sep);
    }
  }

  /** The part of a file name before its first '.' (all of it when there is
      none), as `name.split('.')[0]` computes it. */
  function Stem(name: string): (stem: string)
    ensures stem <= name
    ensures '.' !in stem
    ensures |stem| < |name| ==> name[|stem|] == '.'
  {
    SplitHead(name, '.');
    Split(name, '.')[0]
  }

  /** The three properties of `Stem` pin it down: any dot-free prefix that
      reaches either the end or a '.' is the stem. */
  lemma StemUnique(name: string, t: string)
    requires t <= name && '.' !in t
    requires |t| < |name| ==> name[|t|] == '.'
    ensures t == Stem(name)
  {
  }

  /** A name without a '.' is its own stem. */
  lemma StemNoDot(name: string)
    requires '.' !in name
    ensures Stem(name) == name
  {
  }

  /** A name that starts with '.' (".gitignore") has an empty stem. */
  lemma StemLeadingDot(name: string)
    requires |name| > 0 && name[0] == '.'
    ensures Stem(name) == ""
  {
  }

  /** With several dots ("photo.edit.png") the stem stops at the first. */
  lemma StemFirstDot(head: string, rest: string)
    requires '.' !in head
    ensures Stem(head + "." + rest) == head
  {
    StemUnique(head + "." + rest, head);
  }

  /** The suggested name of the downloaded result for an original file
      `name` and the format value `format`. */
  function DownloadName(name: string, format: string): (r: string)
    ensures Prefix <= r
    ensures r[|Prefix|..] == Stem(name) + "." + format
  {
    Prefix + Split(name, '.')[0] + "." + format
  }

  /** Recover the stem and format from a suggested download name: the text
      after "resized-" must be two dot-free pieces around one '.', the
      second an option of the format selector. */
  function ParseDownloadName(r: string): Option<(string, Formats.Format)> {
    if Prefix <= r then
      var pieces := Split(r[|Prefix|..], '.');
      if |pieces| == 2 && Formats.FromName(pieces[1]).Some? then
        Some((pieces[0], Formats.FromName(pieces[1]).value))
      else None
    else None
  }

  /** Round trip: the stem and format can be read back from every suggested
      name, so distinct stems or formats never share a download name. */
  lemma ParseDownloadNameRoundTrip(name: string, f: Formats.Format)
    ensures ParseDownloadName(DownloadName(name, Formats.Name(f))) == Some((Stem(name), f))
  {
    var r := DownloadName(name, Formats.Name(f));
    Formats.NameIsExtension(f);
    var body := Stem(name) + "." + Formats.Name(f);
    assert r[|Prefix|..] == body;
    SplitPrefix(Stem(name), Formats.Name(f), '.');
    SplitFree(Formats.Name(f), '.');
    assert Split(body, '.') == [Stem(name), Formats.Name(f)];
  }

  /** And back: whatever parses is exactly the suggested name of its parts. */
  lemma ParseDownloadNameSound(r: string, stem: string, f: Formats.Format)
    requires ParseDownloadName(r) == Some((stem, f))
    ensures r == Prefix + stem + "." + Formats.Name(f)
    ensures '.' !in stem
  {
    var body := r[|Prefix|..];
    var pieces := Split(body, '.');
    JoinSplit(body, '.');
    assert Join(pieces, '.') == pieces[0] + "." + pieces[1];
    assert r == Prefix + body;
  }
}
