/** The title input of frontend/src/components/TodoForm.jsx: trimming,
    validation, the payload it submits and how its title and error change. */
module TodoForm {
  import opened Models

  /** Why the form refused or failed a submission. */
  datatype FormError =
    | TitleRequired  // empty after trimming
    | TitleTooLong   // more than 255 characters after trimming
    | AddFailed      // the add callback threw

  const MaxTitleLength := 255

  /** The code points JavaScript's `trim` removes: white space and line
      terminators. */
  const JsSpaceCodes: seq<int> :=
    [0x09, 0x0A, 0x0B, 0x0C, 0x0D, 0x20, 0xA0, 0x1680,
     0x2000, 0x2001, 0x2002, 0x2003, 0x2004, 0x2005, 0x2006, 0x2007, 0x2008, 0x2009, 0x200A,
     0x2028, 0x2029, 0x202F, 0x205F, 0x3000, 0xFEFF]

  /** `n` is one of `codes`. */
  predicate InCodes(n: int, codes: seq<int>) {
    codes != [] && (codes[0] == n || InCodes(n, codes[1..]))
  }

  /** A character JavaScript's `trim` removes. */
  predicate IsJsSpace(c: char) {
    InCodes(c as int, JsSpaceCodes)
  }

  predicate AllSpace(s: string) {
    forall i :: 0 <= i < |s| ==> IsJsSpace(s[i])
  }

  /** How many white-space characters `s` starts with. */
  function LeadingSpace(s: string): (n: nat)
    ensures n <= |s|
    ensures forall k :: 0 <= k < n ==> IsJsSpace(s[k])
    ensures n < |s| ==> !IsJsSpace(s[n])
  {
    if s != [] && IsJsSpace(s[0]) then
      var n := 1 + LeadingSpace(s[1..]);
      assert forall k :: 1 <= k < n ==> s[k] == s[1..][k - 1];
      n
    else 0
  }

  /** How many white-space characters `s` ends with. */
  function TrailingSpace(s: string): (n: nat)
    ensures n <= |s|
    ensures forall k :: |s| - n <= k < |s| ==> IsJsSpace(s[k])
    ensures n < |s| ==> !IsJsSpace(s[|s| - n - 1])
  {
    if s != [] && IsJsSpace(s[|s| - 1]) then
      var n := 1 + TrailingSpace(s[..|s| - 1]);
      assert forall k :: |s| - n <= k < |s| - 1 ==> s[k] == s[..|s| - 1][k];
      n
    else 0
  }

  /** `String.prototype.trim`: the part of `s` between its leading and
      trailing white space, which neither starts nor ends with white space. */
  function Trim(s: string): (r: string)
    ensures LeadingSpace(s) + |r| <= |s|
    ensures r == s[LeadingSpace(s)..LeadingSpace(s) + |r|]
    ensures forall k :: 0 <= k < LeadingSpace(s) ==> IsJsSpace(s[k])
    ensures forall k :: LeadingSpace(s) + |r| <= k < |s| ==> IsJsSpace(s[k])
    ensures r != [] ==> !IsJsSpace(r[0]) && !IsJsSpace(r[|r| - 1])
  {
    var lead := LeadingSpace(s);
    if lead == |s| then []
    else
      var trail := TrailingSpace(s);
      assert lead < |s| - trail;
      s[lead..|s| - trail]
  }

  /** Trimming twice is trimming once. */
  lemma TrimIdempotent(s: string)
    ensures Trim(Trim(s)) == Trim(s)
  {
    var r := Trim(s);
    if r != [] {
      assert LeadingSpace(r) == 0 && TrailingSpace(r) == 0;
      assert r[0..|r|] == r;
    }
  }

  /** A title of nothing but white space is all leading white space. */
  lemma {:induction false} AllSpaceIsLeading(s: string)
    requires AllSpace(s)
    ensures LeadingSpace(s) == |s|
  {
    if s != [] {
      assert AllSpace(s[1..]) by {
        forall k | 0 <= k < |s[1..]| ensures IsJsSpace(s[1..][k]) {
          assert s[1..][k] == s[k + 1];
        }
      }
      AllSpaceIsLeading(s[1..]);
    }
  }

  /** The trimmed title is empty exactly when the title is all white space. */
  lemma TrimEmptyIffBlank(s: string)
    ensures Trim(s) == [] <==> AllSpace(s)
  {
    if AllSpace(s) {
      AllSpaceIsLeading(s);
    }
  }

  /** `handleSubmit`'s checks, in order: required, then at most 255 characters;
      an accepted title is sent trimmed, with `completed` false. */
  function Validate(title: string): (r: Result<TodoCreate, FormError>)
    ensures r == Failure(TitleRequired) <==> AllSpace(title)
    ensures r == Failure(TitleTooLong) <==> !AllSpace(title) && |Trim(title)| > MaxTitleLength
    ensures r.Success? ==> r.value == TodoCreate(Trim(title), false)
    ensures r.Success? ==> 1 <= |r.value.title| <= MaxTitleLength
    ensures r.Failure? ==> r.error != AddFailed
  {
    TrimEmptyIffBlank(title);
    var t := Trim(title);
    if t == [] then Failure(TitleRequired)
    else if |t| > MaxTitleLength then Failure(TitleTooLong)
    else Success(TodoCreate(t, false))
  }

  /** Whether the add button is disabled: while loading or while the title is
      blank. */
  function SubmitDisabled(title: string, loading: bool): (r: bool)
    ensures r <==> loading || AllSpace(title)
  {
    TrimEmptyIffBlank(title);
    loading || Trim(title) == []
  }

  /** An enabled button never leads to the "required" error. */
  lemma EnabledSubmitIsNotBlank(title: string)
    requires !SubmitDisabled(title, false)
    ensures Validate(title) != Failure(TitleRequired)
    ensures Validate(title).Success? || Validate(title) == Failure(TitleTooLong)
  {
  }

  class TodoFormState {
    var title: string
    /** The error line; None is the empty string. */
    var error: Option<FormError>

    constructor ()
      ensures title == "" && error == None
    {
      title := "";
      error := None;
    }

    /** `handleSubmit`: a refused title keeps the input and shows why; an
        accepted one is passed on trimmed, and the input is cleared only when
        the callback succeeds (`addSucceeds`). */
    method HandleSubmit(addSucceeds: bool) returns (submitted: Option<TodoCreate>)
      modifies this
      ensures Validate(old(title)).Failure? ==>
                && submitted == None && title == old(title)
                && error == Some(Validate(old(title)).error)
      ensures Validate(old(title)).Success? ==>
                submitted == Some(Validate(old(title)).value)
      ensures Validate(old(title)).Success? && addSucceeds ==> title == "" && error == None
      ensures Validate(old(title)).Success? && !addSucceeds ==>
                title == old(title) && error == Some(AddFailed)
    {
      var v := Validate(title);
      if v.Failure? {
        error := Some(v.error);
        return None;
      }
      error := None;
      submitted := Some(v.value);
      if addSucceeds {
        title := "";
      } else {
        error := Some(AddFailed);
      }
    }

    /** `handleInputChange`: takes the new text and clears any error. */
    method HandleInputChange(value: string)
      modifies this
      ensures title == value && error == None
    {
      title := value;
      if error.Some? {
        error := None;
      }
    }
  }
}
