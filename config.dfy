/**
 * Configuration of internal/config/config.go: the backend list is split on
 * commas, each piece trimmed of white space and empty pieces dropped; the
 * scalar settings take an explicit flag, else a non-empty environment
 * variable, else a built-in default. The environment and the command-line
 * flags are parameters here.
 */
module Config {
  import opened Wrappers

  // ---- White space and trimming (strings.TrimSpace) ----

  /** unicode.IsSpace: the Latin-1 spaces plus the other Unicode White_Space characters. */
  predicate IsSpace(c: char) {
    var u := c as int;
    || u == 0x09 || u == 0x0A || u == 0x0B || u == 0x0C || u == 0x0D || u == 0x20
    || u == 0x85 || u == 0xA0 || u == 0x1680 || (0x2000 <= u <= 0x200A)
    || u == 0x2028 || u == 0x2029 || u == 0x202F || u == 0x205F || u == 0x3000
  }

  ghost predicate AllSpace(s: string) {
    forall k :: 0 <= k < |s| ==> IsSpace(s[k])
  }

  /** Neither the first nor the last character is white space. */
  ghost predicate Trimmed(s: string) {
    s == "" || (!IsSpace(s[0]) && !IsSpace(s[|s| - 1]))
  }

  /** strings.TrimLeft with unicode.IsSpace: drop the leading white space. */
  function TrimLeft(s: string): string
    decreases |s|
  {
    if s != "" && IsSpace(s[0]) then TrimLeft(s[1..]) else s
  }

  /** strings.TrimRight with unicode.IsSpace: drop the trailing white space. */
  function TrimRight(s: string): string
    decreases |s|
  {
    if s != "" && IsSpace(s[|s| - 1]) then TrimRight(s[..|s| - 1]) else s
  }

  /** TrimLeft removes a prefix of white space and stops at the first other character. */
  lemma {:induction false} TrimLeftSpec(s: string)
    ensures var r := TrimLeft(s);
      && |r| <= |s| && r == s[|s| - |r|..]
      && AllSpace(s[..|s| - |r|])
      && (r != "" ==> !IsSpace(r[0]))
    decreases |s|
  {
    if s != "" && IsSpace(s[0]) {
      TrimLeftSpec(s[1..]);
      var r := TrimLeft(s[1..]);
      var d := |s| - |r|;
      assert s[1..][|s| - 1 - |r|..] == s[d..];
      assert forall k :: 1 <= k < d ==> s[..d][k] == s[1..][..d - 1][k - 1];
    }
  }

  /** TrimRight removes a suffix of white space and stops at the last other character. */
  lemma {:induction false} TrimRightSpec(s: string)
    ensures var r := TrimRight(s);
      && |r| <= |s| && r == s[..|r|]
      && AllSpace(s[|r|..])
      && (r != "" ==> !IsSpace(r[|r| - 1]))
    decreases |s|
  {
    if s != "" && IsSpace(s[|s| - 1]) {
      var m := |s| - 1;
      TrimRightSpec(s[..m]);
      var r := TrimRight(s[..m]);
      assert s[..m][..|r|] == s[..|r|];
      assert s[|r|..] == s[..m][|r|..] + [s[m]];
    }
  }

  /** strings.TrimSpace: drop the leading and the trailing white space. */
  function TrimSpace(s: string): (r: string)
    ensures |r| <= |s| && Trimmed(r)
  {
    TrimLeftSpec(s);
    TrimRightSpec(TrimLeft(s));
    TrimRight(TrimLeft(s))
  }

  /**
   * The trimmed string is the part of `s` between a leading and a trailing
   * run of white space; it starts and ends with a non-space character, and
   * is empty exactly when `s` is all white space.
   */
  lemma TrimSpaceSpec(s: string) returns (i: nat)
    ensures var r := TrimSpace(s);
      && i + |r| <= |s|
      && r == s[i..i + |r|]
      && AllSpace(s[..i]) && AllSpace(s[i + |r|..])
      && Trimmed(r)
      && (r == "" <==> AllSpace(s))
  {
    var l := TrimLeft(s);
    var r := TrimRight(l);
    TrimLeftSpec(s);
    TrimRightSpec(l);
    i := |s| - |l|;
    assert l == s[i..];
    assert r == l[..|r|];
    assert r == s[i..i + |r|] by {
      assert s[i..][..|r|] == s[i..i + |r|];
    }
    assert s[i + |r|..] == l[|r|..] by {
      assert s[i..][|r|..] == s[i + |r|..];
    }
    assert AllSpace(s[..i]);
    if r != "" {
      assert r[0] == l[0];
      assert !IsSpace(s[i]);
      assert !AllSpace(s);
    } else if l != "" {
      assert false;
    } else {
      assert s == s[..i];
    }
  }

  lemma TrimSpaceIdempotent(s: string)
    ensures TrimSpace(TrimSpace(s)) == TrimSpace(s)
  {
    var i := TrimSpaceSpec(s);
  }

  // ---- Splitting on a separator (strings.Split) ----

  function Occurrences(s: string, c: char): nat
    decreases |s|
  {
    if s == "" then 0 else (if s[0] == c then 1 else 0) + Occurrences(s[1..], c)
  }

  /**
   * strings.Split for a one-character separator: the pieces between the
   * separators, so one more piece than separators ("" gives [""]).
   */
  function Split(s: string, sep: char): (parts: seq<string>)
    ensures |parts| == Occurrences(s, sep) + 1
    ensures forall i :: 0 <= i < |parts| ==> sep !in parts[i]
    ensures forall i, k :: 0 <= i < |parts| && 0 <= k < |parts[i]| ==> parts[i][k] in s
    decreases |s|
  {
    if s == "" then [""]
    else if s[0] == sep then [""] + Split(s[1..], sep)
    else
      var rest := Split(s[1..], sep);
      [[s[0]] + rest[0]] + rest[1..]
  }

  /** strings.Join with a one-character separator. */
  function Join(parts: seq<string>, sep: char): string
    requires |parts| > 0
    decreases |parts|
  {
    if |parts| == 1 then parts[0] else parts[0] + [sep] + Join(parts[1..], sep)
  }

  /** Joining the pieces back with the separator gives the input: nothing is lost or reordered. */
  lemma {:induction false} JoinSplit(s: string, sep: char)
    ensures Join(Split(s, sep), sep) == s
    decreases |s|
  {
    if s != "" {
      JoinSplit(s[1..], sep);
      var rest := Split(s[1..], sep);
      if s[0] == sep {
        assert ([""] + rest)[1..] == rest;
      } else {
        var parts := [[s[0]] + rest[0]] + rest[1..];
        if |rest| > 1 {
          assert parts[1..] == rest[1..];
          assert Join(rest, sep) == rest[0] + [sep] + Join(rest[1..], sep);
        }
      }
    }
  }

  // ---- The backend list ----

  /** Trim every piece and keep the non-empty ones, in order. */
  function Clean(pieces: seq<string>): (r: seq<string>)
    ensures |r| <= |pieces|
    decreases |pieces|
  {
    if pieces == [] then []
    else
      var n := |pieces| - 1;
      var t := TrimSpace(pieces[n]);
      Clean(pieces[..n]) + (if t == "" then [] else [t])
  }

  /** The backend list of a comma-separated setting. */
  function BackendList(s: string): (r: seq<string>)
    ensures |r| <= Occurrences(s, ',') + 1
    ensures s == "" ==> r == []
  {
    Clean(Split(s, ','))
  }

  /** The piece each element of Clean(pieces) comes from. */
  ghost function Origins(pieces: seq<string>): seq<nat>
    decreases |pieces|
  {
    if pieces == [] then []
    else
      var n := |pieces| - 1;
      Origins(pieces[..n]) + (if TrimSpace(pieces[n]) == "" then [] else [n])
  }

  /** The origins are in range and strictly increasing, one per kept element. */
  lemma {:induction false} OriginsShape(pieces: seq<string>)
    ensures |Origins(pieces)| == |Clean(pieces)|
    ensures forall k :: 0 <= k < |Origins(pieces)| ==> Origins(pieces)[k] < |pieces|
    ensures forall a, b :: 0 <= a < b < |Origins(pieces)| ==> Origins(pieces)[a] < Origins(pieces)[b]
    decreases |pieces|
  {
    if pieces != [] {
      var n := |pieces| - 1;
      OriginsShape(pieces[..n]);
      var o0, o := Origins(pieces[..n]), Origins(pieces);
      assert o == o0 || o == o0 + [n];
      forall a, b | 0 <= a < b < |o| ensures o[a] < o[b] {
        if b < |o0| {
          assert o[a] == o0[a] && o[b] == o0[b];
        } else {
          assert o[a] == o0[a] && o[b] == n;
        }
      }
    }
  }

  /** Each kept element is the trimmed piece it comes from. */
  lemma {:induction false} CleanAtOrigins(pieces: seq<string>)
    ensures |Origins(pieces)| == |Clean(pieces)|
    ensures forall k :: 0 <= k < |Origins(pieces)| ==> Origins(pieces)[k] < |pieces| && Clean(pieces)[k] == TrimSpace(pieces[Origins(pieces)[k]])
    decreases |pieces|
  {
    if pieces != [] {
      var n := |pieces| - 1;
      var front := pieces[..n];
      CleanAtOrigins(front);
      var o0, r0 := Origins(front), Clean(front);
      var o, r := Origins(pieces), Clean(pieces);
      var t := TrimSpace(pieces[n]);
      if t == "" {
        assert o == o0 && r == r0;
      } else {
        assert o == o0 + [n] && r == r0 + [t];
      }
      forall k | 0 <= k < |o| ensures o[k] < |pieces| && r[k] == TrimSpace(pieces[o[k]]) {
        if k < |o0| {
          assert o[k] == o0[k] && r[k] == r0[k];
          assert front[o0[k]] == pieces[o0[k]];
        } else {
          assert o[k] == n && r[k] == t;
        }
      }
    }
  }

  /** Every piece that is not an origin trims to the empty string. */
  lemma {:induction false} UnusedBlank(pieces: seq<string>)
    ensures forall j :: 0 <= j < |pieces| && j !in Origins(pieces) ==> TrimSpace(pieces[j]) == ""
    decreases |pieces|
  {
    if pieces != [] {
      var n := |pieces| - 1;
      var front := pieces[..n];
      UnusedBlank(front);
      var o0, o := Origins(front), Origins(pieces);
      if TrimSpace(pieces[n]) == "" {
        assert o == o0;
      } else {
        assert o == o0 + [n];
      }
      forall j | 0 <= j < |pieces| && j !in o ensures TrimSpace(pieces[j]) == "" {
        if j < n {
          assert forall x :: x in o0 ==> x in o;
          assert j !in o0;
          assert front[j] == pieces[j];
        }
      }
    }
  }

  /**
   * Clean keeps order and drops only blank pieces: element k is the trimmed
   * piece Origins[k], the origins increase strictly, and every piece not
   * used trims to the empty string.
   */
  lemma CleanKeepsOrder(pieces: seq<string>)
    ensures var r, o := Clean(pieces), Origins(pieces);
      && |o| == |r|
      && (forall k :: 0 <= k < |o| ==> o[k] < |pieces| && r[k] == TrimSpace(pieces[o[k]]))
      && (forall a, b :: 0 <= a < b < |o| ==> o[a] < o[b])
      && (forall j :: 0 <= j < |pieces| && j !in o ==> TrimSpace(pieces[j]) == "")
  {
    OriginsShape(pieces);
    CleanAtOrigins(pieces);
    UnusedBlank(pieces);
  }

  /** Every element of Clean(pieces) is non-empty and trimmed. */
  lemma {:induction false} CleanTrimmed(pieces: seq<string>)
    ensures forall k :: 0 <= k < |Clean(pieces)| ==>
      Clean(pieces)[k] != "" && Trimmed(Clean(pieces)[k])
    decreases |pieces|
  {
    if pieces != [] {
      var n := |pieces| - 1;
      var front := pieces[..n];
      CleanTrimmed(front);
      var r0 := Clean(front);
      var r := Clean(pieces);
      var t := TrimSpace(pieces[n]);
      var i := TrimSpaceSpec(pieces[n]);
      if t == "" {
        assert r == r0;
      } else {
        assert r == r0 + [t];
      }
      forall k | 0 <= k < |r| ensures r[k] != "" && Trimmed(r[k]) {
        if k < |r0| {
          assert r[k] == r0[k];
        }
      }
    }
  }

  /** Every element of Clean(pieces) is non-empty, trimmed and one of the trimmed pieces. */
  lemma CleanElements(pieces: seq<string>)
    ensures forall k :: 0 <= k < |Clean(pieces)| ==>
      Clean(pieces)[k] != "" && Trimmed(Clean(pieces)[k])
    ensures forall k :: 0 <= k < |Clean(pieces)| ==>
      exists j :: 0 <= j < |pieces| && Clean(pieces)[k] == TrimSpace(pieces[j])
  {
    CleanTrimmed(pieces);
    CleanAtOrigins(pieces);
    var r, o := Clean(pieces), Origins(pieces);
    forall k | 0 <= k < |r| ensures exists j :: 0 <= j < |pieces| && r[k] == TrimSpace(pieces[j]) {
      var j := o[k];
      assert 0 <= j < |pieces| && r[k] == TrimSpace(pieces[j]);
    }
  }

  /** If every piece is blank, nothing is kept. */
  lemma {:induction false} CleanBlank(pieces: seq<string>)
    requires forall j :: 0 <= j < |pieces| ==> AllSpace(pieces[j])
    ensures Clean(pieces) == []
    decreases |pieces|
  {
    if pieces != [] {
      var n := |pieces| - 1;
      CleanBlank(pieces[..n]);
      var i := TrimSpaceSpec(pieces[n]);
    }
  }

  /** A trimmed string holds only characters of the string it was trimmed from. */
  lemma TrimSpaceWithin(s: string, c: char)
    requires c in TrimSpace(s)
    ensures c in s
  {
    var i := TrimSpaceSpec(s);
    var t := TrimSpace(s);
    var m :| 0 <= m < |t| && t[m] == c;
    assert s[i + m] == c;
  }

  /** No backend in the list contains a comma. */
  lemma BackendListNoComma(s: string)
    ensures forall k :: 0 <= k < |BackendList(s)| ==> ',' !in BackendList(s)[k]
  {
    var pieces := Split(s, ',');
    var b := BackendList(s);
    CleanElements(pieces);
    forall k | 0 <= k < |b| ensures ',' !in b[k] {
      var j :| 0 <= j < |pieces| && b[k] == TrimSpace(pieces[j]);
      if ',' in b[k] {
        TrimSpaceWithin(pieces[j], ',');
      }
    }
  }

  /** An empty or all-white-space setting gives no backends. */
  lemma BackendListBlank(s: string)
    requires AllSpace(s)
    ensures BackendList(s) == []
  {
    var pieces := Split(s, ',');
    forall j | 0 <= j < |pieces| ensures AllSpace(pieces[j]) {
      forall k | 0 <= k < |pieces[j]| ensures IsSpace(pieces[j][k]) {
        assert pieces[j][k] in s;
      }
    }
    CleanBlank(pieces);
  }

  /**
   * The backend list: no element is empty or starts or ends with white
   * space, none contains a comma, there are at most (commas + 1) of them,
   * and an empty or all-white-space setting gives no backends.
   */
  lemma BackendListSpec(s: string)
    ensures var b := BackendList(s);
      && (forall k :: 0 <= k < |b| ==> b[k] != "" && Trimmed(b[k]) && ',' !in b[k])
      && |b| <= Occurrences(s, ',') + 1
      && (AllSpace(s) ==> b == [])
  {
    CleanElements(Split(s, ','));
    BackendListNoComma(s);
    if AllSpace(s) {
      BackendListBlank(s);
    }
  }

  // ---- Worked examples of the backend list ----

  lemma {:induction false} SplitNoSeparator(s: string, sep: char)
    requires sep !in s
    ensures Split(s, sep) == [s]
    decreases |s|
  {
    if s != "" {
      assert s[0] in s;
      assert forall c :: c in s[1..] ==> c in s;
      SplitNoSeparator(s[1..], sep);
      assert [s[0]] + s[1..] == s;
    }
  }

  /** Splitting at the first separator: the part before it is the first piece. */
  lemma {:induction false} SplitAtFirst(a: string, sep: char, b: string)
    requires sep !in a
    ensures Split(a + [sep] + b, sep) == [a] + Split(b, sep)
    decreases |a|
  {
    if a == "" {
      assert a + [sep] + b == [sep] + b;
      assert ([sep] + b)[1..] == b;
    } else {
      var s := a + [sep] + b;
      assert s[0] == a[0] && s[1..] == a[1..] + [sep] + b;
      assert forall c :: c in a[1..] ==> c in a;
      SplitAtFirst(a[1..], sep, b);
      assert [a[0]] + a[1..] == a;
    }
  }

  /** Clean works piece by piece: cleaning a concatenation concatenates the results. */
  lemma {:induction false} CleanAppend(p: seq<string>, q: seq<string>)
    ensures Clean(p + q) == Clean(p) + Clean(q)
    decreases |q|
  {
    if q == [] {
      assert p + q == p;
    } else {
      var n := |q| - 1;
      assert (p + q)[..|p + q| - 1] == p + q[..n];
      CleanAppend(p, q[..n]);
    }
  }

  lemma {:induction false} TrimLeftPadded(lead: string, x: string)
    requires AllSpace(lead) && (x == "" || !IsSpace(x[0]))
    ensures TrimLeft(lead + x) == x
    decreases |lead|
  {
    if lead == "" {
      assert lead + x == x;
    } else {
      assert (lead + x)[1..] == lead[1..] + x;
      TrimLeftPadded(lead[1..], x);
    }
  }

  lemma {:induction false} TrimRightPadded(x: string, trail: string)
    requires AllSpace(trail) && (x == "" || !IsSpace(x[|x| - 1]))
    ensures TrimRight(x + trail) == x
    decreases |trail|
  {
    if trail == "" {
      assert x + trail == x;
    } else {
      var n := |trail| - 1;
      assert (x + trail)[..|x + trail| - 1] == x + trail[..n];
      TrimRightPadded(x, trail[..n]);
    }
  }

  /** Trimming removes exactly the white space around a trimmed core. */
  lemma TrimPadded(lead: string, x: string, trail: string)
    requires AllSpace(lead) && AllSpace(trail) && Trimmed(x)
    ensures TrimSpace(lead + x + trail) == x
  {
    assert lead + x + trail == lead + (x + trail);
    if x == "" {
      assert lead + x + trail == lead + trail + "";
      assert AllSpace(lead + trail) by {
        forall k | 0 <= k < |lead + trail| ensures IsSpace((lead + trail)[k]) {
          if k >= |lead| {
            assert (lead + trail)[k] == trail[k - |lead|];
          }
        }
      }
      TrimLeftPadded(lead + trail, "");
    } else {
      TrimLeftPadded(lead, x + trail);
      TrimRightPadded(x, trail);
    }
  }

  /** The pieces of the example setting with spaces around the second address. */
  lemma ThreePieces(a: string, b: string, c: string)
    requires ',' !in a && ',' !in b && ',' !in c
    ensures Split(a + "," + b + "," + c, ',') == [a, b, c]
  {
    assert a + "," + b + "," + c == a + [','] + (b + [','] + c);
    SplitAtFirst(a, ',', b + [','] + c);
    SplitAtFirst(b, ',', c);
    SplitNoSeparator(c, ',');
  }

  lemma CleanSingle(x: string)
    ensures Clean([x]) == if TrimSpace(x) == "" then [] else [TrimSpace(x)]
  {
    assert [x][..0] == [];
  }

  /** Three pieces are cleaned one at a time, in order. */
  lemma CleanThree(p1: string, p2: string, p3: string, x1: string, x2: string, x3: string)
    requires Clean([p1]) == [x1] && Clean([p2]) == [x2] && Clean([p3]) == [x3]
    ensures Clean([p1, p2, p3]) == [x1, x2, x3]
  {
    assert [p1] + [p2] == [p1, p2];
    assert [p1, p2] + [p3] == [p1, p2, p3];
    CleanAppend([p1], [p2]);
    CleanAppend([p1, p2], [p3]);
  }

  /** A trimmed address with white space around it is kept, without the spaces. */
  lemma CleanPadded(lead: string, x: string, trail: string)
    requires AllSpace(lead) && AllSpace(trail) && x != "" && Trimmed(x)
    ensures Clean([lead + x + trail]) == [x]
  {
    TrimPadded(lead, x, trail);
    CleanSingle(lead + x + trail);
  }

  /** The pieces of "a, b , c" keep the spaces next to the separators. */
  lemma SpacedPieces(a: string, b: string, c: string)
    requires ',' !in a && ',' !in b && ',' !in c
    ensures Split(a + ", " + b + " , " + c, ',') == [a, " " + b + " ", " " + c + ""]
  {
    var pb, pc := " " + b + " ", " " + c + "";
    assert ", " == "," + " ";
    assert " , " == " " + "," + " ";
    assert a + ", " + b + " , " + c == a + "," + pb + "," + pc;
    assert ',' !in pb && ',' !in pc;
    ThreePieces(a, pb, pc);
  }

  lemma SpacedPiecesKept(a: string, b: string, c: string)
    requires a != "" && b != "" && c != ""
    requires Trimmed(a) && Trimmed(b) && Trimmed(c)
    ensures Clean([a]) == [a] && Clean([" " + b + " "]) == [b] && Clean([" " + c + ""]) == [c]
  {
    assert "" + a + "" == a;
    CleanPadded("", a, "");
    CleanPadded(" ", b, " ");
    CleanPadded(" ", c, "");
  }

  lemma CleanSpacedPieces(a: string, b: string, c: string)
    requires a != "" && b != "" && c != ""
    requires Trimmed(a) && Trimmed(b) && Trimmed(c)
    ensures Clean([a, " " + b + " ", " " + c + ""]) == [a, b, c]
  {
    SpacedPiecesKept(a, b, c);
    CleanThree(a, " " + b + " ", " " + c + "", a, b, c);
  }

  /**
   * Spaces around the separators are dropped: three addresses written as
   * "a, b , c" give exactly [a, b, c].
   */
  lemma ThreeBackendsTrimmed(a: string, b: string, c: string)
    requires ',' !in a && ',' !in b && ',' !in c
    requires a != "" && b != "" && c != ""
    requires Trimmed(a) && Trimmed(b) && Trimmed(c)
    ensures BackendList(a + ", " + b + " , " + c) == [a, b, c]
  {
    SpacedPieces(a, b, c);
    CleanSpacedPieces(a, b, c);
  }

  /** A single address without a comma is a one-element list. */
  lemma OneBackend(s: string)
    requires ',' !in s && s != "" && Trimmed(s)
    ensures BackendList(s) == [s]
  {
    SplitNoSeparator(s, ',');
    TrimPadded("", s, "");
    assert "" + s + "" == s;
  }

  /** Parse's loop over the pieces: trim each one and append it when non-empty. */
  method ParseBackends(backendsStr: string) returns (backends: seq<string>)
    ensures backends == BackendList(backendsStr)
  {
    var pieces := Split(backendsStr, ',');
    backends := [];
    for i := 0 to |pieces|
      invariant backends == Clean(pieces[..i])
    {
      var s := TrimSpace(pieces[i]);
      if s != "" {
        backends := backends + [s];
      }
      assert pieces[..i + 1][..i] == pieces[..i];
    }
    assert pieces[..|pieces|] == pieces;
  }

  // ---- Environment variables ----

  /** os.Getenv: an unset variable reads as the empty string. */
  function Getenv(env: map<string, string>, key: string): string {
    if key in env then env[key] else ""
  }

  /** getEnv: the variable's value when it is set to something non-empty, else the default. */
  function GetEnv(env: map<string, string>, key: string, def: string): (r: string)
    ensures key in env && env[key] != "" ==> r == env[key]
    ensures key !in env || env[key] == "" ==> r == def
  {
    var v := Getenv(env, key);
    if v != "" then v else def
  }

  // ---- Decimal integers (strconv.Atoi on a 64-bit int) ----

  const MinInt: int := -0x8000_0000_0000_0000
  const MaxInt: int := 0x7FFF_FFFF_FFFF_FFFF

  predicate IsDigit(c: char) {
    '0' <= c <= '9'
  }

  function DigitValue(c: char): nat
    requires IsDigit(c)
  {
    (c as int) - ('0' as int)
  }

  predicate AllDigits(s: string) {
    forall k :: 0 <= k < |s| ==> IsDigit(s[k])
  }

  /** The value of a string of decimal digits, most significant first. */
  function DigitsValue(s: string): nat
    requires AllDigits(s)
    decreases |s|
  {
    if s == "" then 0
    else DigitsValue(s[..|s| - 1]) * 10 + DigitValue(s[|s| - 1])
  }

  /**
   * strconv.Atoi: an optional sign and at least one decimal digit, nothing
   * else, and a value that fits a 64-bit int; anything else is an error.
   */
  function Atoi(s: string): (r: Option<int>)
    ensures r.Some? ==> MinInt <= r.value <= MaxInt
    ensures s == "" || s == "-" || s == "+" ==> r.None?
    ensures r.Some? && r.value < 0 ==> s[0] == '-'
  {
    if s == "" then None
    else
      var body := if s[0] == '-' || s[0] == '+' then s[1..] else s;
      if body == "" || !AllDigits(body) then None
      else
        var magnitude: int := DigitsValue(body);
        var v := if s[0] == '-' then -magnitude else magnitude;
        if MinInt <= v <= MaxInt then Some(v) else None
  }

  function DigitChar(d: nat): (c: char)
    requires d < 10
    ensures IsDigit(c) && DigitValue(c) == d
  {
    ('0' as int + d) as char
  }

  /** The decimal digits of a natural number (strconv.Itoa without the sign). */
  function ShowNat(n: nat): (s: string)
    ensures s != "" && AllDigits(s)
    decreases n
  {
    if n < 10 then [DigitChar(n)] else ShowNat(n / 10) + [DigitChar(n % 10)]
  }

  /** strconv.Itoa. */
  function Show(n: int): string {
    if n < 0 then "-" + ShowNat(-n) else ShowNat(n)
  }

  lemma {:induction false} DigitsOfShowNat(n: nat)
    ensures DigitsValue(ShowNat(n)) == n
    decreases n
  {
    if n >= 10 {
      DigitsOfShowNat(n / 10);
      var s := ShowNat(n);
      assert s[..|s| - 1] == ShowNat(n / 10);
    }
  }

  /** Unsigned digits within range parse to their value. */
  lemma AtoiDigits(s: string)
    requires s != "" && AllDigits(s) && DigitsValue(s) <= MaxInt
    ensures Atoi(s) == Some(DigitsValue(s))
  {
    assert IsDigit(s[0]);
  }

  /** A minus sign followed by digits within range parses to the negated value. */
  lemma AtoiNegated(s: string)
    requires s != "" && AllDigits(s) && DigitsValue(s) <= -MinInt
    ensures Atoi("-" + s) == Some(-(DigitsValue(s) as int))
  {
    var t := "-" + s;
    assert t[0] == '-' && t[1..] == s;
  }

  /** Every 64-bit integer written in decimal parses back to itself. */
  lemma AtoiShow(n: int)
    requires MinInt <= n <= MaxInt
    ensures Atoi(Show(n)) == Some(n)
  {
    if n < 0 {
      DigitsOfShowNat(-n);
      AtoiNegated(ShowNat(-n));
    } else {
      DigitsOfShowNat(n);
      AtoiDigits(ShowNat(n));
    }
  }

  /** Some character, apart from a leading sign, is not a decimal digit. */
  ghost predicate NonNumeric(v: string) {
    exists k :: 0 <= k < |v| && !IsDigit(v[k]) && !(k == 0 && (v[0] == '-' || v[0] == '+'))
  }

  lemma NonNumericRejected(v: string)
    requires NonNumeric(v)
    ensures Atoi(v) == None
  {
    var k :| 0 <= k < |v| && !IsDigit(v[k]) && !(k == 0 && (v[0] == '-' || v[0] == '+'));
    if v[0] == '-' || v[0] == '+' {
      assert v[1..][k - 1] == v[k];
    }
  }

  /** getEnvInt: the parsed value when the variable is non-empty and parses, else the default. */
  function GetEnvInt(env: map<string, string>, key: string, def: int): (r: int)
    ensures Getenv(env, key) == "" ==> r == def
    ensures Atoi(Getenv(env, key)).None? ==> r == def
    ensures Atoi(Getenv(env, key)).Some? ==> r == Atoi(Getenv(env, key)).value
  {
    var v := Getenv(env, key);
    if v != "" then
      match Atoi(v)
      case Some(n) => n
      case None => def
    else def
  }

  /** A non-numeric value falls back to the default. */
  lemma NonNumericFallsBack(env: map<string, string>, key: string, def: int)
    requires key in env && NonNumeric(env[key])
    ensures GetEnvInt(env, key, def) == def
  {
    NonNumericRejected(env[key]);
  }

  /** A variable holding the decimal form of a 64-bit integer yields that integer. */
  lemma DecimalEnvWins(env: map<string, string>, key: string, def: int, n: int)
    requires MinInt <= n <= MaxInt
    requires key in env && env[key] == Show(n)
    ensures GetEnvInt(env, key, def) == n
  {
    AtoiShow(n);
  }

  // ---- The configuration ----

  datatype Config = Config(backends: seq<string>, port: int, algorithm: string, healthCheckSeconds: int)

  /** The flags given explicitly on the command line (already parsed by the flag package). */
  datatype Flags = Flags(backends: Option<string>, port: Option<int>, algorithm: Option<string>, health: Option<int>)

  const NoFlags := Flags(None, None, None, None)

  const DefaultPort := 8080
  const DefaultAlgorithm := "round-robin"
  const DefaultHealthSeconds := 30

  /** The backend setting: an explicit flag wins over LB_BACKENDS, which wins over "". */
  function BackendsSetting(env: map<string, string>, flags: Flags): (r: string)
    ensures flags.backends.Some? ==> r == flags.backends.value
    ensures flags.backends.None? && "LB_BACKENDS" in env ==> r == env["LB_BACKENDS"]
    ensures flags.backends.None? && "LB_BACKENDS" !in env ==> r == ""
  {
    flags.backends.GetOr(GetEnv(env, "LB_BACKENDS", ""))
  }

  /** The scalar settings; the backend list is filled by ParseBackends. */
  function Settings(env: map<string, string>, flags: Flags): (cfg: Config)
    ensures cfg.backends == []
    ensures flags.port.Some? ==> cfg.port == flags.port.value
    ensures flags.port.None? && Atoi(Getenv(env, "LB_PORT")).Some? ==>
      cfg.port == Atoi(Getenv(env, "LB_PORT")).value
    ensures flags.port.None? && Atoi(Getenv(env, "LB_PORT")).None? ==> cfg.port == DefaultPort
    ensures flags.algorithm.Some? ==> cfg.algorithm == flags.algorithm.value
    ensures flags.algorithm.None? && ("LB_ALGORITHM" !in env || env["LB_ALGORITHM"] == "") ==>
      cfg.algorithm == DefaultAlgorithm
    ensures flags.algorithm.None? && "LB_ALGORITHM" in env && env["LB_ALGORITHM"] != "" ==>
      cfg.algorithm == env["LB_ALGORITHM"]
    ensures flags.health.Some? ==> cfg.healthCheckSeconds == flags.health.value
    ensures flags.health.None? && Atoi(Getenv(env, "LB_HEALTH_INTERVAL")).Some? ==>
      cfg.healthCheckSeconds == Atoi(Getenv(env, "LB_HEALTH_INTERVAL")).value
    ensures flags.health.None? && Atoi(Getenv(env, "LB_HEALTH_INTERVAL")).None? ==>
      cfg.healthCheckSeconds == DefaultHealthSeconds
  {
    Config([],
      flags.port.GetOr(GetEnvInt(env, "LB_PORT", DefaultPort)),
      flags.algorithm.GetOr(GetEnv(env, "LB_ALGORITHM", DefaultAlgorithm)),
      flags.health.GetOr(GetEnvInt(env, "LB_HEALTH_INTERVAL", DefaultHealthSeconds)))
  }

  /** Parse: the scalar settings, and the backend list built piece by piece. */
  method Parse(env: map<string, string>, flags: Flags) returns (cfg: Config)
    ensures cfg == Settings(env, flags).(backends := BackendList(BackendsSetting(env, flags)))
  {
    var backends := ParseBackends(BackendsSetting(env, flags));
    cfg := Settings(env, flags).(backends := backends);
  }

  /** With no variable and no flag set: port 8080, round-robin, every 30 seconds, no backends. */
  lemma DefaultsWhenUnset()
    ensures Settings(map[], NoFlags) == Config([], 8080, "round-robin", 30)
    ensures BackendList(BackendsSetting(map[], NoFlags)) == []
  {
    BackendListSpec("");
  }

  /** An explicit flag wins over the environment. */
  lemma FlagsWin(env: map<string, string>, flags: Flags)
    requires flags.port.Some? && flags.algorithm.Some? && flags.health.Some?
    ensures Settings(env, flags) == Config([], flags.port.value, flags.algorithm.value, flags.health.value)
  {
  }

  /** Without flags, non-empty decimal variables win over the defaults. */
  lemma EnvironmentWins(env: map<string, string>, port: int, algorithm: string, health: int)
    requires MinInt <= port <= MaxInt && MinInt <= health <= MaxInt && algorithm != ""
    requires "LB_PORT" in env && env["LB_PORT"] == Show(port)
    requires "LB_ALGORITHM" in env && env["LB_ALGORITHM"] == algorithm
    requires "LB_HEALTH_INTERVAL" in env && env["LB_HEALTH_INTERVAL"] == Show(health)
    ensures Settings(env, NoFlags) == Config([], port, algorithm, health)
  {
    AtoiShow(port);
    AtoiShow(health);
  }
}
