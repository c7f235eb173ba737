/**
  normalizeArray: a caller-supplied list option (nothing, a comma-separated
  string, or an array of strings) becomes an array of trimmed strings, each
  checked against a list of valid choices when one is given.
 */
module Normalize {
  import opened Wrappers

  /** What a descriptor may give for a list option. */
  datatype ListArg = Absent | Single(s: string) | Many(items: seq<string>)

  /** The first position of c in s. */
  function IndexOf(s: string, c: char): (i: nat)
    requires c in s
    ensures i < |s| && s[i] == c && c !in s[..i]
  {
    if s[0] == c then 0
    else
      assert c in s[1..];
      var i := 1 + IndexOf(s[1..], c);
      assert s[..i] == [s[0]] + s[1..][..i - 1];
      i
  }

  /** parts.join(","). */
  function Join(parts: seq<string>): string
    requires |parts| >= 1
  {
    if |parts| == 1 then parts[0] else parts[0] + "," + Join(parts[1..])
  }

  /**
    s.split(","): the pieces between commas, in order, empty ones included.
    Its partner is Join: joining the pieces with commas gives s back.
   */
  function Split(s: string): (parts: seq<string>)
    ensures |parts| >= 1
    ensures forall k :: 0 <= k < |parts| ==> ',' !in parts[k]
    ensures Join(parts) == s
    decreases |s|
  {
    if ',' !in s then [s]
    else
      var i := IndexOf(s, ',');
      var rest := Split(s[i + 1..]);
      assert s == s[..i] + "," + s[i + 1..];
      [s[..i]] + rest
  }

  /** The characters String.prototype.trim removes (WhiteSpace and LineTerminator). */
  predicate IsSpace(c: char) {
    var n := c as int;
    (9 <= n <= 13)                   // tab, line feed, vertical tab, form feed, carriage return
    || n == 0x20 || n == 0xA0        // space, no-break space
    || n == 0x1680 || (0x2000 <= n <= 0x200A)
    || n == 0x2028 || n == 0x2029    // line and paragraph separators
    || n == 0x202F || n == 0x205F || n == 0x3000
    || n == 0xFEFF                   // byte order mark
  }

  /** The number of leading spaces of s. */
  function Lead(s: string): (i: nat)
    ensures i <= |s|
    ensures forall k :: 0 <= k < i ==> IsSpace(s[k])
    ensures i < |s| ==> !IsSpace(s[i])
  {
    if s != [] && IsSpace(s[0]) then 1 + Lead(s[1..]) else 0
  }

  /** The length of s without its trailing spaces. */
  function Body(s: string): (j: nat)
    ensures j <= |s|
    ensures forall k :: j <= k < |s| ==> IsSpace(s[k])
    ensures 0 < j ==> !IsSpace(s[j - 1])
  {
    if s != [] && IsSpace(s[|s| - 1]) then Body(s[..|s| - 1]) else |s|
  }

  /** r stands at position i of s with nothing but spaces around it. */
  ghost predicate Surrounded(s: string, i: int, r: string) {
    0 <= i <= |s| - |r| && r == s[i..i + |r|]
    && (forall k :: 0 <= k < i ==> IsSpace(s[k]))
    && (forall k :: i + |r| <= k < |s| ==> IsSpace(s[k]))
  }

  /**
    $.trim(s): s without its leading and trailing spaces. The result is a
    slice of s, everything around it is space, and it neither starts nor
    ends with a space.
   */
  function Trim(s: string): (r: string)
    ensures r == [] || (!IsSpace(r[0]) && !IsSpace(r[|r| - 1]))
    ensures exists i :: Surrounded(s, i, r)
  {
    var i := Lead(s);
    var rest := s[i..];
    var j := Body(rest);
    assert j > 0 ==> !IsSpace(rest[0]);
    var r := rest[..j];
    assert Surrounded(s, i, r);
    r
  }

  /** Trimming twice is trimming once. */
  lemma TrimIdempotent(s: string)
    ensures Trim(Trim(s)) == Trim(s)
  {
    TrimKeeps(Trim(s));
  }

  /** Trimming a text that neither starts nor ends with a space leaves it as it is. */
  lemma TrimKeeps(s: string)
    requires s == [] || (!IsSpace(s[0]) && !IsSpace(s[|s| - 1]))
    ensures Trim(s) == s
  {
    var r := Trim(s);
    var i :| Surrounded(s, i, r);
    if s != [] {
      assert i == 0;
      assert i + |r| == |s|;
    }
  }

  /**
    The strings before trimming: a missing or empty string gives none (an
    empty string is not split), a non-empty string is split on commas, and
    an array is taken as it is.
   */
  function Pieces(arg: ListArg): (r: seq<string>)
    ensures arg.Single? && arg.s != "" ==>
              |r| >= 1 && Join(r) == arg.s && forall k :: 0 <= k < |r| ==> ',' !in r[k]
    ensures arg.Absent? || (arg.Single? && arg.s == "") ==> r == []
    ensures arg.Many? ==> r == arg.items
  {
    match arg
    case Absent => []
    case Single(s) => if s == "" then [] else Split(s)
    case Many(items) => items
  }

  function TrimAll(xs: seq<string>): (r: seq<string>)
    ensures |r| == |xs| && forall k :: 0 <= k < |xs| ==> r[k] == Trim(xs[k])
  {
    seq(|xs|, k requires 0 <= k < |xs| => Trim(xs[k]))
  }

  /**
    normalizeArray(arg, choices): each piece is trimmed in place; with a list
    of choices, the first trimmed piece not in it is reported as the error.
   */
  method NormalizeArray(arg: ListArg, choices: Option<seq<string>>) returns (r: Result<seq<string>, string>)
    ensures r.Success? <==>
              choices.None? || forall k :: 0 <= k < |TrimAll(Pieces(arg))| ==> TrimAll(Pieces(arg))[k] in choices.value
    ensures r.Success? ==> r.value == TrimAll(Pieces(arg))
    ensures r.Failure? ==>
              choices.Some? && FirstInvalid(TrimAll(Pieces(arg)), choices.value) == Some(r.error)
  {
    r := TrimEach(Pieces(arg), choices);
    if r.Failure? {
      ghost var i :| FirstRejected(TrimAll(Pieces(arg)), choices.value, i, r.error);
      FirstRejectedIsFirstInvalid(TrimAll(Pieces(arg)), choices.value, i, r.error);
    }
  }

  /** The loop of normalizeArray: trim each piece in place and check it. */
  method TrimEach(pieces: seq<string>, choices: Option<seq<string>>) returns (r: Result<seq<string>, string>)
    ensures r.Success? <==>
              choices.None? || forall k :: 0 <= k < |pieces| ==> TrimAll(pieces)[k] in choices.value
    ensures r.Success? ==> r.value == TrimAll(pieces)
    ensures r.Failure? ==>
              choices.Some? && exists i :: FirstRejected(TrimAll(pieces), choices.value, i, r.error)
  {
    ghost var tokens := TrimAll(pieces);
    var options := new string[|pieces|](k requires 0 <= k < |pieces| => pieces[k]);
    var i := 0;
    while i < options.Length
      invariant 0 <= i <= options.Length == |pieces|
      invariant forall k :: 0 <= k < i ==> options[k] == tokens[k]
      invariant forall k :: i <= k < options.Length ==> options[k] == pieces[k]
      invariant choices.Some? ==> forall k :: 0 <= k < i ==> tokens[k] in choices.value
    {
      var token := Trim(options[i]);
      assert token == tokens[i];
      options[i] := token;
      if choices.Some? && token !in choices.value {
        assert FirstRejected(tokens, choices.value, i, token);
        return Failure(token);
      }
      i := i + 1;
    }
    assert options[..] == tokens;
    return Success(options[..]);
  }

  /** tokens[i] is the first token not among the choices, and it is t. */
  ghost predicate FirstRejected(tokens: seq<string>, choices: seq<string>, i: int, t: string) {
    0 <= i < |tokens| && tokens[i] == t && t !in choices
    && forall k :: 0 <= k < i ==> tokens[k] in choices
  }

  /** The first token not among the choices, if any. */
  function FirstInvalid(tokens: seq<string>, choices: seq<string>): (r: Option<string>)
    ensures r.None? <==> forall k :: 0 <= k < |tokens| ==> tokens[k] in choices
    ensures r.Some? ==> r.value !in choices
  {
    if tokens == [] then None
    else if tokens[0] !in choices then Some(tokens[0])
    else FirstInvalid(tokens[1..], choices)
  }

  lemma {:induction false} FirstRejectedIsFirstInvalid(tokens: seq<string>, choices: seq<string>, i: int, t: string)
    requires FirstRejected(tokens, choices, i, t)
    ensures FirstInvalid(tokens, choices) == Some(t)
    decreases i
  {
    if i > 0 {
      assert tokens[0] in choices;
      assert FirstRejected(tokens[1..], choices, i - 1, t);
      FirstRejectedIsFirstInvalid(tokens[1..], choices, i - 1, t);
    }
  }
}
