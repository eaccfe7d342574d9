/** The three byte-string operations the converter takes from Go's `strings`
    package: splitting a line on ',', trimming leading '0's, and testing a
    prefix. A `char` here stands for one byte of the input, as Go's `len`
    counts bytes. */
module Text {

  /** True if `s` holds no ','. */
  predicate CommaFree(s: string) {
    forall k :: 0 <= k < |s| ==> s[k] != ','
  }

  /** The fields put back together with a ',' between neighbours. */
  function Join(fields: seq<string>): string
    requires |fields| >= 1
    decreases |fields|
  {
    if |fields| == 1 then fields[0] else fields[0] + "," + Join(fields[1..])
  }

  /** Number of ',' characters in `s`. */
  function Commas(s: string): nat
  {
    if s == [] then 0 else (if s[0] == ',' then 1 else 0) + Commas(s[1..])
  }

  /** `strings.Split(s, ",")`: the pieces between the commas, in order.
      There is always at least one piece (the empty line gives [""]), no
      piece holds a comma, and joining the pieces gives back the line. */
  function Split(s: string): (fields: seq<string>)
    ensures |fields| == Commas(s) + 1
    ensures forall k :: 0 <= k < |fields| ==> CommaFree(fields[k])
    ensures Join(fields) == s
    decreases |s|
  {
    if s == [] then [""]
    else
      var rest := Split(s[1..]);
      if s[0] == ',' then
        assert s == "," + Join(rest);
        [""] + rest
      else
        var fields := [[s[0]] + rest[0]] + rest[1..];
        JoinExtendsFirst(s[0], rest);
        assert s == [s[0]] + s[1..];
        fields
  }

  /** Prepending a character to the first field prepends it to the join. */
  lemma JoinExtendsFirst(c: char, fields: seq<string>)
    requires |fields| >= 1
    ensures Join([[c] + fields[0]] + fields[1..]) == [c] + Join(fields)
  {
    var longer := [[c] + fields[0]] + fields[1..];
    if |fields| > 1 {
      assert longer[1..] == fields[1..];
    }
  }

  /** Splitting a comma-free word followed by anything extends the first
      field of the rest by that word. */
  lemma {:induction false} SplitAfterWord(w: string, t: string)
    requires CommaFree(w)
    ensures Split(w + t) == [w + Split(t)[0]] + Split(t)[1..]
    decreases |w|
  {
    if w != [] {
      var u := w[1..] + t;
      assert (w + t)[1..] == u;
      assert (w + t)[0] == w[0];
      SplitAfterWord(w[1..], t);
      assert [w[0]] + (w[1..] + Split(t)[0]) == w + Split(t)[0];
    } else {
      assert w + t == t;
      assert w + Split(t)[0] == Split(t)[0];
      assert Split(t) == [Split(t)[0]] + Split(t)[1..];
    }
  }

  /** Split undoes Join on comma-free fields: the two are inverses. */
  lemma {:induction false} SplitOfJoin(fields: seq<string>)
    requires |fields| >= 1
    requires forall k :: 0 <= k < |fields| ==> CommaFree(fields[k])
    ensures Split(Join(fields)) == fields
    decreases |fields|
  {
    var w := fields[0];
    if |fields| == 1 {
      SplitAfterWord(w, "");
      assert w + "" == w;
    } else {
      var rest := Join(fields[1..]);
      SplitOfJoin(fields[1..]);
      assert Split("," + rest) == [""] + Split(rest) by {
        assert ("," + rest)[1..] == rest;
      }
      SplitAfterWord(w, "," + rest);
      assert w + "" == w;
      assert Join(fields) == w + ("," + rest);
    }
  }

  /** `strings.HasPrefix(s, prefix)`. */
  predicate HasPrefix(s: string, prefix: string) {
    |prefix| <= |s| && s[..|prefix|] == prefix
  }

  /** `strings.TrimLeft(s, "0")`: `s` with every leading '0' removed. The
      result is a suffix of `s`, does not start with '0', and all that was
      cut off is '0's. */
  function TrimLeadingZeros(s: string): (r: string)
    ensures |r| <= |s| && r == s[|s| - |r|..]
    ensures r == [] || r[0] != '0'
    ensures forall k :: 0 <= k < |s| - |r| ==> s[k] == '0'
  {
    if s != [] && s[0] == '0' then TrimLeadingZeros(s[1..]) else s
  }

  lemma TrimLeadingZerosExamples()
    ensures TrimLeadingZeros("0012") == "12"
    ensures TrimLeadingZeros("000") == ""
  {
    assert "0012"[1..] == "012" && "012"[1..] == "12";
    assert "12"[0] == '1';
    assert "000"[1..] == "00" && "00"[1..] == "0" && "0"[1..] == "";
  }
}
