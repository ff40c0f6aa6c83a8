/**
 * Address lists as they are stored in a mail row: `Mail.queue` joins each
 * list of addresses with "," (lib/mail.rb:38-41) and `deliver!` splits the
 * stored string back on "," (lib/mail.rb:84-87). Ruby's `String#split`
 * drops trailing empty fields, and `blank?` treats a string made only of
 * whitespace like an empty one; both are written out here.
 */
module Addresses {
  import opened Wrappers

  /** The characters Ruby's `\s` matches (space, tab, newline, carriage return, form feed). */
  predicate IsSpace(c: char) {
    c == ' ' || c == '\t' || c == '\n' || c == '\r' || c == 12 as char
  }

  /** Ruby's `String#blank?`: no character other than whitespace. */
  predicate Blank(s: string) {
    forall i :: 0 <= i < |s| ==> IsSpace(s[i])
  }

  /** An address that survives a join and a split unchanged: not blank, no comma. */
  predicate WellFormed(a: string) {
    !Blank(a) && ',' !in a
  }

  /** `Array#join(",")`. */
  function Join(xs: seq<string>): (s: string)
    ensures |xs| > 0 ==> xs[0] <= s
  {
    if xs == [] then ""
    else if |xs| == 1 then xs[0]
    else xs[0] + "," + Join(xs[1..])
  }

  /** Position of the first comma in `s`, if any. */
  function FirstComma(s: string): (r: Option<nat>)
    ensures r.Some? ==> r.value < |s| && s[r.value] == ',' && ',' !in s[..r.value]
    ensures r.None? <==> ',' !in s
  {
    if s == [] then None
    else if s[0] == ',' then Some(0)
    else match FirstComma(s[1..])
      case None => None
      case Some(i) => Some(i + 1)
  }

  /** Every field between commas, empty ones included: the cut `split` makes before it drops trailing empties. */
  function Fields(s: string): (fs: seq<string>)
    ensures |fs| >= 1
    decreases |s|
  {
    match FirstComma(s)
    case None => [s]
    case Some(i) => [s[..i]] + Fields(s[i + 1..])
  }

  /** Drops the empty fields at the end of a field list, as `String#split` does. */
  function DropTrailingEmpty(fs: seq<string>): (r: seq<string>)
    ensures |r| <= |fs|
  {
    if fs == [] then []
    else if fs[|fs| - 1] == "" then DropTrailingEmpty(fs[..|fs| - 1])
    else fs
  }

  /** `String#split(",")`. */
  function Split(s: string): seq<string> {
    DropTrailingEmpty(Fields(s))
  }

  /** No field holds a comma. */
  lemma {:induction false} FieldsCommaFree(s: string)
    ensures forall f :: f in Fields(s) ==> ',' !in f
    decreases |s|
  {
    match FirstComma(s)
    case None =>
    case Some(i) =>
      FieldsCommaFree(s[i + 1..]);
  }

  /** Only empty fields are dropped, only at the end, and all of them. */
  lemma {:induction false} DropTrailingEmptySpec(fs: seq<string>)
    ensures DropTrailingEmpty(fs) <= fs
    ensures DropTrailingEmpty(fs) == [] || DropTrailingEmpty(fs)[|DropTrailingEmpty(fs)| - 1] != ""
    ensures forall k :: |DropTrailingEmpty(fs)| <= k < |fs| ==> fs[k] == ""
  {
    if fs != [] && fs[|fs| - 1] == "" {
      DropTrailingEmptySpec(fs[..|fs| - 1]);
    }
  }

  /** What `split(",")` promises: comma-free pieces, and never an empty piece at the end. */
  lemma SplitSpec(s: string)
    ensures forall f :: f in Split(s) ==> ',' !in f
    ensures Split(s) == [] || Split(s)[|Split(s)| - 1] != ""
  {
    FieldsCommaFree(s);
    DropTrailingEmptySpec(Fields(s));
    forall f | f in Split(s) ensures f in Fields(s) {
      var k :| 0 <= k < |Split(s)| && Split(s)[k] == f;
      assert Fields(s)[k] == f;
    }
  }

  /** Cutting a string at its commas and joining the pieces again gives the string back. */
  lemma {:induction false} JoinFields(s: string)
    ensures Join(Fields(s)) == s
    decreases |s|
  {
    match FirstComma(s)
    case None =>
    case Some(i) =>
      var rest := s[i + 1..];
      var fs := Fields(rest);
      JoinFields(rest);
      var xs := [s[..i]] + fs;
      assert Fields(s) == xs;
      assert xs[0] == s[..i] && xs[1..] == fs;
      assert Join(xs) == s[..i] + "," + Join(fs);
      assert s == s[..i] + "," + rest;
  }

  /** Joining comma-free addresses and cutting at the commas gives the list back. */
  lemma {:induction false} FieldsJoin(xs: seq<string>)
    requires |xs| > 0
    requires forall x :: x in xs ==> ',' !in x
    ensures Fields(Join(xs)) == xs
  {
    if |xs| > 1 {
      var s := Join(xs);
      assert s == xs[0] + "," + Join(xs[1..]);
      assert s[..|xs[0]|] == xs[0];
      FirstCommaAt(xs[0], Join(xs[1..]));
      assert s[|xs[0]| + 1..] == Join(xs[1..]);
      assert forall x :: x in xs[1..] ==> x in xs;
      FieldsJoin(xs[1..]);
      assert Fields(s) == [s[..|xs[0]|]] + Fields(s[|xs[0]| + 1..]);
      assert xs == [xs[0]] + xs[1..];
    } else {
      assert FirstComma(xs[0]).None?;
    }
  }

  /** The first comma of `x + "," + rest` is the one after `x` when `x` has none. */
  lemma {:induction false} FirstCommaAt(x: string, rest: string)
    requires ',' !in x
    ensures FirstComma(x + "," + rest) == Some(|x|)
  {
    var s := x + "," + rest;
    if x != [] {
      assert s[1..] == x[1..] + "," + rest;
      FirstCommaAt(x[1..], rest);
    }
  }

  /**
   * The round trip between `Mail.queue` and `deliver!`: for a list of
   * non-empty, comma-free addresses, `split(",")` after `join(",")` gives
   * the same list back, the empty list included.
   */
  lemma SplitJoin(xs: seq<string>)
    requires forall x :: x in xs ==> x != "" && ',' !in x
    ensures Split(Join(xs)) == xs
  {
    if xs == [] {
      assert Fields("") == [""];
    } else {
      FieldsJoin(xs);
      assert xs[|xs| - 1] in xs;
    }
  }

  /** A joined list of well-formed addresses is blank exactly when the list is empty. */
  lemma JoinBlank(xs: seq<string>)
    requires forall x :: x in xs ==> WellFormed(x)
    ensures Blank(Join(xs)) <==> xs == []
  {
    if xs != [] {
      assert xs[0] in xs;
      var i :| 0 <= i < |xs[0]| && !IsSpace(xs[0][i]);
      assert Join(xs)[i] == xs[0][i];
    }
  }
}
