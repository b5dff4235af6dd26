/** Request-path handling shared by the hand-written handlers: splitting on
    '/', the last segment, prefix tests, and reading an id segment. */
module Paths {
  import opened Models

  /** `s.split('/')` as Python and JavaScript compute it: the pieces between
      slashes, empty ones included; never an empty list. */
  function Split(s: string): (parts: seq<string>)
    ensures |parts| >= 1
    ensures forall i :: 0 <= i < |parts| ==> '/' !in parts[i]
  {
    if s == [] then [[]]
    else if s[|s| - 1] == '/' then Split(s[..|s| - 1]) + [[]]
    else
      var p := Split(s[..|s| - 1]);
      p[..|p| - 1] + [p[|p| - 1] + [s[|s| - 1]]]
  }

  /** `'/'.join(parts)`. */
  function Join(parts: seq<string>): string
    requires |parts| >= 1
  {
    if |parts| == 1 then parts[0] else Join(parts[..|parts| - 1]) + "/" + parts[|parts| - 1]
  }

  lemma {:induction false} JoinLastExtended(parts: seq<string>, c: char)
    requires |parts| >= 1
    ensures Join(parts[..|parts| - 1] + [parts[|parts| - 1] + [c]]) == Join(parts) + [c]
  {
    var q := parts[..|parts| - 1] + [parts[|parts| - 1] + [c]];
    assert q[..|q| - 1] == parts[..|parts| - 1];
  }

  /** Splitting on '/' loses nothing: joining the pieces gives the path back. */
  lemma {:induction false} JoinSplit(s: string)
    ensures Join(Split(s)) == s
  {
    if s != [] {
      var init := s[..|s| - 1];
      JoinSplit(init);
      assert s == init + [s[|s| - 1]];
      var p := Split(init);
      if s[|s| - 1] == '/' {
        var q := p + [[]];
        assert q[..|q| - 1] == p;
      } else {
        JoinLastExtended(p, s[|s| - 1]);
      }
    }
  }

  /** `path.split('/')[-1]`. */
  function LastPart(s: string): string {
    var parts := Split(s);
    parts[|parts| - 1]
  }

  /** The last part is the longest suffix without a '/'. */
  lemma {:induction false} LastPartIsFinalSegment(s: string)
    ensures '/' !in LastPart(s)
    ensures |LastPart(s)| <= |s| && LastPart(s) == s[|s| - |LastPart(s)|..]
    ensures |LastPart(s)| < |s| ==> s[|s| - |LastPart(s)| - 1] == '/'
  {
    if s != [] && s[|s| - 1] != '/' {
      var init := s[..|s| - 1];
      LastPartIsFinalSegment(init);
      var p := Split(init);
      assert LastPart(s) == LastPart(init) + [s[|s| - 1]];
    }
  }

  /** `parts.filter(part => part)`: the non-empty pieces, in order. */
  function NonEmpty(parts: seq<string>): (r: seq<string>)
    ensures forall x :: x in r <==> x in parts && x != []
  {
    if parts == [] then []
    else
      assert parts == parts[..|parts| - 1] + [parts[|parts| - 1]];
      NonEmpty(parts[..|parts| - 1]) + (if parts[|parts| - 1] != [] then [parts[|parts| - 1]] else [])
  }

  /** The last non-empty segment of a path, None when there is none (the
      `endpoint` of the Netlify function). */
  function Endpoint(path: string): Option<string> {
    var parts := NonEmpty(Split(path));
    if parts == [] then None else Some(parts[|parts| - 1])
  }

  /** A trailing slash does not change the endpoint. */
  lemma TrailingSlashIgnored(path: string)
    ensures Endpoint(path + "/") == Endpoint(path)
  {
    var p := path + "/";
    assert p[..|p| - 1] == path;
    var q := Split(path) + [[]];
    assert q[..|q| - 1] == Split(path);
  }

  /** The endpoint of `prefix/segment` is the segment, whatever the prefix. */
  lemma EndpointOfAppendedSegment(prefix: string, seg: string)
    requires seg != [] && '/' !in seg
    ensures Endpoint(prefix + "/" + seg) == Some(seg)
  {
    SplitAppendSegment(prefix + "/", seg);
    var pre := prefix + "/";
    assert pre[..|pre| - 1] == prefix;
    var ps := Split(prefix) + [[]];
    assert Split(pre) == ps;
    var q := ps[..|ps| - 1] + [ps[|ps| - 1] + seg];
    assert q[|q| - 1] == seg;
    assert q[..|q| - 1] + [seg] == q;
  }

  lemma {:induction false} SplitAppendSegment(pre: string, seg: string)
    requires '/' !in seg
    ensures var p := Split(pre);
            Split(pre + seg) == p[..|p| - 1] + [p[|p| - 1] + seg]
  {
    var p := Split(pre);
    if seg == [] {
      assert pre + seg == pre;
      assert p[|p| - 1] + seg == p[|p| - 1];
      assert p[..|p| - 1] + [p[|p| - 1]] == p;
    } else {
      var init := seg[..|seg| - 1];
      var c := seg[|seg| - 1];
      assert '/' !in init by {
        forall i | 0 <= i < |init| ensures init[i] != '/' {
          assert init[i] == seg[i];
        }
      }
      SplitAppendSegment(pre, init);
      assert (pre + seg)[..|pre + seg| - 1] == pre + init;
      assert c in seg;
      var q := p[..|p| - 1] + [p[|p| - 1] + init];
      assert q[..|q| - 1] == p[..|p| - 1];
      assert p[|p| - 1] + init + [c] == p[|p| - 1] + seg;
    }
  }

  /** Where a DELETE request goes: a single delete of the record named by a
      path segment, one of the two bulk deletes, or nowhere. */
  datatype DeleteRoute = DeleteOne(idText: string) | DeleteCompleted | DeleteAll | NoRoute

  predicate StartsWith(s: string, prefix: string) {
    |prefix| <= |s| && s[..|prefix|] == prefix
  }

  // ----- id segments -----

  predicate IsDigit(c: char) { '0' <= c <= '9' }

  function DigitValue(c: char): nat
    requires IsDigit(c)
  {
    (c as int) - ('0' as int)
  }

  function DigitsValue(s: string): nat
    requires forall i :: 0 <= i < |s| ==> IsDigit(s[i])
  {
    if s == [] then 0 else 10 * DigitsValue(s[..|s| - 1]) + DigitValue(s[|s| - 1])
  }

  /** A path segment read as an id: a non-empty run of decimal digits. */
  function ParseId(s: string): Option<nat> {
    if s != [] && forall i :: 0 <= i < |s| ==> IsDigit(s[i]) then Some(DigitsValue(s)) else None
  }

  /** The decimal text of an id, as the client writes it into `/todos/{id}`. */
  function IdText(n: nat): (s: string)
    ensures s != [] && forall i :: 0 <= i < |s| ==> IsDigit(s[i])
  {
    var d := ['0' + ((n % 10) as char)];
    if n < 10 then d else IdText(n / 10) + d
  }

  /** A path the client builds from an id reads back as that id. */
  lemma {:induction false} ParseIdText(n: nat)
    ensures ParseId(IdText(n)) == Some(n)
  {
    var s := IdText(n);
    assert DigitValue(s[|s| - 1]) == n % 10;
    if n >= 10 {
      ParseIdText(n / 10);
      assert s[..|s| - 1] == IdText(n / 10);
      assert DigitsValue(s) == 10 * (n / 10) + n % 10;
    } else {
      assert s[..|s| - 1] == [];
      assert DigitsValue(s) == n % 10;
    }
  }

  /** The bulk-operation names are not ids. */
  lemma BulkNamesAreNotIds()
    ensures ParseId("completed") == None
    ensures ParseId("all") == None
    ensures ParseId("") == None
  {
    assert !IsDigit("completed"[0]);
    assert !IsDigit("all"[0]);
  }
}
