/**
 * Client-side syntactic validation of handle strings: one handle against the
 * naming rules, and a list split into the valid (normalised) handles and the
 * errors.
 */
module Validation {
  import opened Wrappers
  import opened Text
  import opened Seqs

  /** The rule a rejected input breaks; `Message` is the text shown for it. */
  datatype Rule = Empty | TooShort | TooLong | BadPattern | Reserved {
    function Message(): string {
      match this
      case Empty => "Handle cannot be empty"
      case TooShort => "Handle must be at least 3 characters long"
      case TooLong => "Handle cannot exceed 30 characters"
      case BadPattern =>
        "Handle must start and end with alphanumeric characters, can contain hyphens and underscores in between"
      case Reserved => "This handle is reserved and cannot be used"
    }
  }

  /** A rejected input: the raw input as given, and the rule it breaks. */
  datatype ValidationError = ValidationError(handle: string, rule: Rule) {
    function Message(): string { rule.Message() }
  }

  const MinLength: nat := 3
  const MaxLength: nat := 30
  const ReservedHandles: seq<string> := ["admin", "root", "system", "support", "help"]

  /** `[a-zA-Z0-9]` */
  predicate IsAsciiAlnum(c: char) {
    ('a' <= c <= 'z') || ('A' <= c <= 'Z') || ('0' <= c <= '9')
  }

  /** `[a-zA-Z0-9_-]` */
  predicate IsHandleChar(c: char) {
    IsAsciiAlnum(c) || c == '_' || c == '-'
  }

  /** The first alternative of the handle pattern, `^[a-zA-Z0-9][a-zA-Z0-9_-]*[a-zA-Z0-9]$`. */
  predicate MatchesMultiChar(s: string) {
    && |s| >= 2
    && IsAsciiAlnum(s[0])
    && IsAsciiAlnum(s[|s| - 1])
    && forall i :: 0 < i < |s| - 1 ==> IsHandleChar(s[i])
  }

  /** The second alternative of the handle pattern, `^[a-zA-Z0-9]$`. */
  predicate MatchesSingleChar(s: string) {
    |s| == 1 && IsAsciiAlnum(s[0])
  }

  /**
   * `handleRegex.test(s)`. Together the two alternatives admit exactly the non-empty
   * strings of handle characters that begin and end with a letter or digit.
   */
  predicate MatchesHandlePattern(s: string)
    ensures MatchesHandlePattern(s) <==>
      && s != []
      && IsAsciiAlnum(s[0]) && IsAsciiAlnum(s[|s| - 1])
      && forall i :: 0 <= i < |s| ==> IsHandleChar(s[i])
  {
    MatchesMultiChar(s) || MatchesSingleChar(s)
  }

  /** A string the pattern admits is ASCII, so its JavaScript length is its character count. */
  lemma PatternLength(s: string)
    requires MatchesHandlePattern(s)
    ensures Utf16Length(s) == |s|
  {
    assert forall i :: 0 <= i < |s| ==> s[i] <= '\U{FFFF}' by {
      forall i | 0 <= i < |s| ensures s[i] <= '\U{FFFF}' {
        assert IsHandleChar(s[i]);
      }
    }
  }

  /** What a valid handle is turned into before it is checked: trimmed and lower-cased. */
  function Normalize(handle: string): (r: string)
    ensures |r| == |Trim(handle)|
    ensures forall i :: 0 <= i < |r| ==> !IsAsciiUpper(r[i])
  {
    ToLowerAscii(Trim(handle))
  }

  /**
   * `validateHandle`: None when the handle is acceptable, otherwise the first
   * rule it breaks, in the order empty, too short, too long, pattern, reserved.
   * The length rules count UTF-16 code units, as JavaScript's `length` does.
   */
  function ValidateHandle(handle: string): (r: Option<ValidationError>)
    ensures r.Some? ==> r.value.handle == handle
  {
    var trimmed := Trim(handle);
    if trimmed == [] then Some(ValidationError(handle, Empty))
    else if Utf16Length(trimmed) < MinLength then Some(ValidationError(handle, TooShort))
    else if Utf16Length(trimmed) > MaxLength then Some(ValidationError(handle, TooLong))
    else if !MatchesHandlePattern(trimmed) then Some(ValidationError(handle, BadPattern))
    else if ToLowerAscii(trimmed) in ReservedHandles then Some(ValidationError(handle, Reserved))
    else None
  }

  /** Empty or all-white-space input, and only such input, is rejected as empty. */
  lemma BlankRejected(handle: string)
    ensures ValidateHandle(handle) == Some(ValidationError(handle, Empty))
        <==> AllWhitespace(handle)
  {
    TrimEmptyIff(handle);
  }

  /** A trimmed length outside 3..30 is rejected by the length rules (or as empty). */
  lemma LengthOutOfRangeRejected(handle: string)
    requires Utf16Length(Trim(handle)) < MinLength || Utf16Length(Trim(handle)) > MaxLength
    ensures ValidateHandle(handle).Some?
    ensures Utf16Length(Trim(handle)) == 0 ==> ValidateHandle(handle).value.rule == Empty
    ensures 0 < Utf16Length(Trim(handle)) < MinLength ==> ValidateHandle(handle).value.rule == TooShort
    ensures Utf16Length(Trim(handle)) > MaxLength ==> ValidateHandle(handle).value.rule == TooLong
  {
  }

  /** Each length and pattern rule is reported exactly when it is the first rule broken. */
  lemma RuleReportedIff(handle: string)
    ensures ValidateHandle(handle) == Some(ValidationError(handle, TooShort))
        <==> 0 < Utf16Length(Trim(handle)) < MinLength
    ensures ValidateHandle(handle) == Some(ValidationError(handle, TooLong))
        <==> Utf16Length(Trim(handle)) > MaxLength
    ensures ValidateHandle(handle) == Some(ValidationError(handle, BadPattern))
        <==> MinLength <= Utf16Length(Trim(handle)) <= MaxLength && !MatchesHandlePattern(Trim(handle))
  {
  }

  /**
   * The reserved rule is reported exactly for an input of allowed length that
   * matches the pattern and whose normal form is a reserved word.
   */
  lemma ReservedIff(handle: string)
    ensures ValidateHandle(handle) == Some(ValidationError(handle, Reserved))
        <==> && MinLength <= |Trim(handle)| <= MaxLength
             && MatchesHandlePattern(Trim(handle))
             && Normalize(handle) in ReservedHandles
  {
    if MatchesHandlePattern(Trim(handle)) {
      PatternLength(Trim(handle));
    }
  }

  /**
   * A character above U+FFFF counts twice towards the length: "a" followed by
   * an emoji passes the length rules and is rejected by the pattern.
   */
  lemma AstralCharExample()
    ensures ValidateHandle("a\U{1F600}") == Some(ValidationError("a\U{1F600}", BadPattern))
  {
    TrimUnchanged("a\U{1F600}");
  }

  /**
   * The single-character alternative of the pattern is never what admits a
   * handle: a trimmed input it matches has already been rejected as too short.
   */
  lemma SingleCharAlternativeUnreachable(handle: string)
    requires MatchesSingleChar(Trim(handle))
    ensures ValidateHandle(handle) == Some(ValidationError(handle, TooShort))
  {
    PatternLength(Trim(handle));
  }

  /** The characterisation of an accepted handle, rule by rule. */
  lemma AcceptedIff(handle: string)
    ensures ValidateHandle(handle) == None <==>
      var t := Trim(handle);
      && MinLength <= |t| <= MaxLength
      && IsAsciiAlnum(t[0]) && IsAsciiAlnum(t[|t| - 1])
      && (forall i :: 0 < i < |t| - 1 ==> IsHandleChar(t[i]))
      && ToLowerAscii(t) !in ReservedHandles
  {
    if MatchesMultiChar(Trim(handle)) {
      PatternLength(Trim(handle));
    }
  }

  lemma LowerCharKeepsClass(c: char)
    ensures IsAsciiAlnum(LowerChar(c)) <==> IsAsciiAlnum(c)
    ensures IsHandleChar(LowerChar(c)) <==> IsHandleChar(c)
    ensures IsWhitespace(LowerChar(c)) <==> IsWhitespace(c)
  {
  }

  /** The reserved words are 4 to 7 lower-case ASCII letters. */
  lemma ReservedShape(w: string)
    requires w in ReservedHandles
    ensures 4 <= |w| <= 7
    ensures forall i :: 0 <= i < |w| ==> 'a' <= w[i] <= 'z'
  {
    if w == "admin" {
    } else if w == "root" {
    } else if w == "system" {
    } else if w == "support" {
    } else {
      assert w == "help";
    }
  }

  /** A reserved word in any letter case, white space around it or not, is rejected as reserved. */
  lemma ReservedCaseInsensitive(handle: string)
    requires Normalize(handle) in ReservedHandles
    ensures ValidateHandle(handle) == Some(ValidationError(handle, Reserved))
  {
    var t := Trim(handle);
    var l := ToLowerAscii(t);
    ReservedShape(l);
    forall i | 0 <= i < |t| ensures IsAsciiAlnum(t[i]) {
      LowerCharKeepsClass(t[i]);
      assert IsAsciiAlnum(l[i]);
    }
    assert MatchesMultiChar(t);
  }

  /** "admin", "Admin" and "ADMIN" are all rejected as reserved. */
  lemma ReservedExamples()
    ensures ValidateHandle("admin") == Some(ValidationError("admin", Reserved))
    ensures ValidateHandle("Admin") == Some(ValidationError("Admin", Reserved))
    ensures ValidateHandle("ADMIN") == Some(ValidationError("ADMIN", Reserved))
  {
    ReservedVariant("admin");
    ReservedVariant("Admin");
    ReservedVariant("ADMIN");
  }

  lemma ReservedVariant(w: string)
    requires |w| == 5 && w[0] in "aA" && w[1] in "dD" && w[2] in "mM" && w[3] in "iI" && w[4] in "nN"
    ensures ValidateHandle(w) == Some(ValidationError(w, Reserved))
  {
    TrimUnchanged(w);
    assert ToLowerAscii(w) == "admin";
    ReservedCaseInsensitive(w);
  }

  /** Lower-casing keeps a string's match against the multi-character pattern. */
  lemma LowerKeepsPattern(t: string)
    requires MatchesMultiChar(t)
    ensures MatchesMultiChar(ToLowerAscii(t))
  {
    var v := ToLowerAscii(t);
    LowerCharKeepsClass(t[0]);
    LowerCharKeepsClass(t[|t| - 1]);
    forall i | 0 < i < |v| - 1 ensures IsHandleChar(v[i]) {
      LowerCharKeepsClass(t[i]);
    }
  }

  /**
   * Normalising an accepted handle gives a handle that is accepted again and
   * that normalising leaves as it is.
   */
  lemma NormalizeAccepted(handle: string)
    requires ValidateHandle(handle) == None
    ensures ValidateHandle(Normalize(handle)) == None
    ensures Normalize(Normalize(handle)) == Normalize(handle)
    ensures |Normalize(handle)| == |Trim(handle)|
  {
    AcceptedTrimmed(handle);
    LowerOfGoodIsGood(Trim(handle));
  }

  /** Lower-casing a trimmed string that meets every rule gives an accepted, normalised string. */
  lemma LowerOfGoodIsGood(t: string)
    requires MinLength <= |t| <= MaxLength && MatchesMultiChar(t) && ToLowerAscii(t) !in ReservedHandles
    ensures ValidateHandle(ToLowerAscii(t)) == None
    ensures Trim(ToLowerAscii(t)) == ToLowerAscii(t)
    ensures ToLowerAscii(ToLowerAscii(t)) == ToLowerAscii(t)
  {
    var v := ToLowerAscii(t);
    LowerKeepsPattern(t);
    assert Trim(v) == v by {
      assert !IsWhitespace(v[0]) && !IsWhitespace(v[|v| - 1]);
      TrimUnchanged(v);
    }
    ToLowerAsciiIdempotent(t);
    AcceptedWhenTrimmed(v);
  }

  /** What an accepted input's trimmed form satisfies. */
  lemma AcceptedTrimmed(handle: string)
    requires ValidateHandle(handle) == None
    ensures var t := Trim(handle);
      MinLength <= |t| <= MaxLength && MatchesMultiChar(t) && ToLowerAscii(t) !in ReservedHandles
  {
    PatternLength(Trim(handle));
  }

  /** A trimmed string that meets every rule is accepted. */
  lemma AcceptedWhenTrimmed(t: string)
    requires Trim(t) == t
    requires MinLength <= |t| <= MaxLength && MatchesMultiChar(t) && ToLowerAscii(t) !in ReservedHandles
    ensures ValidateHandle(t) == None
  {
    PatternLength(t);
  }

  /** The normalised form of an accepted input; nothing for a rejected one. */
  function AcceptedForm(handle: string): (r: Option<string>)
    ensures r.Some? <==> ValidateHandle(handle) == None
    ensures r.Some? ==> r.value == Normalize(handle)
  {
    if ValidateHandle(handle) == None then Some(Normalize(handle)) else None
  }

  /** The `valid` list for `handles`: the normalised accepted inputs. */
  function ValidOf(handles: seq<string>): (r: seq<string>)
    ensures |r| <= |handles|
  {
    FilterMap(handles, AcceptedForm)
  }

  /** The `errors` list for `handles`: the errors of the rejected inputs. */
  function ErrorsOf(handles: seq<string>): (r: seq<ValidationError>)
    ensures |r| <= |handles|
  {
    FilterMap(handles, ValidateHandle)
  }

  /**
   * `valid` holds the normalised accepted inputs, in input order, duplicates
   * kept: `passed` lists the indices of exactly the accepted inputs, increasing.
   */
  lemma ValidOrdered(handles: seq<string>) returns (passed: seq<nat>)
    ensures StrictlyIncreasing(passed)
    ensures forall i :: 0 <= i < |handles| ==> (i in passed <==> ValidateHandle(handles[i]) == None)
    ensures |passed| == |ValidOf(handles)|
    ensures forall k :: 0 <= k < |passed| ==>
      passed[k] < |handles| && ValidOf(handles)[k] == Normalize(handles[passed[k]])
  {
    passed := FilterMapOrdered(handles, AcceptedForm);
  }

  /**
   * `errors` holds the errors of the rejected inputs, in input order:
   * `failed` lists the indices of exactly the rejected inputs, increasing.
   */
  lemma ErrorsOrdered(handles: seq<string>) returns (failed: seq<nat>)
    ensures StrictlyIncreasing(failed)
    ensures forall i :: 0 <= i < |handles| ==> (i in failed <==> ValidateHandle(handles[i]).Some?)
    ensures |failed| == |ErrorsOf(handles)|
    ensures forall k :: 0 <= k < |failed| ==>
      failed[k] < |handles| && Some(ErrorsOf(handles)[k]) == ValidateHandle(handles[failed[k]])
  {
    failed := FilterMapOrdered(handles, ValidateHandle);
  }

  /** `|valid| + |errors| == |handles|`. */
  lemma PartitionSizes(handles: seq<string>)
    ensures |ValidOf(handles)| + |ErrorsOf(handles)| == |handles|
  {
    FilterMapComplementSizes(handles, AcceptedForm, ValidateHandle);
  }

  /** Every element of `valid` is accepted when validated again, and is already normalised. */
  lemma ValidElementsRevalidate(handles: seq<string>)
    ensures forall v :: v in ValidOf(handles) ==> ValidateHandle(v) == None && Normalize(v) == v
  {
    var passed := ValidOrdered(handles);
    forall v | v in ValidOf(handles) ensures ValidateHandle(v) == None && Normalize(v) == v {
      var k :| 0 <= k < |ValidOf(handles)| && ValidOf(handles)[k] == v;
      NormalizeAccepted(handles[passed[k]]);
    }
  }

  /** `validateMultipleHandles`: one pass over the input, pushing onto `valid` or `errors`. */
  method ValidateMultipleHandles(handles: seq<string>)
    returns (valid: seq<string>, errors: seq<ValidationError>)
    ensures valid == ValidOf(handles) && errors == ErrorsOf(handles)
    ensures |valid| + |errors| == |handles|
  {
    valid, errors := [], [];
    for i := 0 to |handles|
      invariant valid == ValidOf(handles[..i])
      invariant errors == ErrorsOf(handles[..i])
    {
      assert handles[..i + 1] == handles[..i] + [handles[i]];
      FilterMapSnoc(handles[..i], handles[i], AcceptedForm);
      FilterMapSnoc(handles[..i], handles[i], ValidateHandle);
      var error := ValidateHandle(handles[i]);
      if error.Some? {
        errors := errors + [error.value];
      } else {
        valid := valid + [Normalize(handles[i])];
      }
    }
    assert handles[..|handles|] == handles;
    PartitionSizes(handles);
  }

  lemma ShortExample()
    ensures ValidateHandle("ab") == Some(ValidationError("ab", TooShort))
  {
    TrimUnchanged("ab");
  }

  lemma NormalizedExample()
    ensures Normalize("validHandle") == "validhandle"
  {
    var h := "validHandle";
    assert Trim(h) == h by { TrimUnchanged(h); }
    assert ToLowerAscii(h) == "validhandle";
  }

  lemma AcceptedExample()
    ensures ValidateHandle("validHandle") == None
  {
    var h := "validHandle";
    assert Trim(h) == h by { TrimUnchanged(h); }
    assert MatchesMultiChar(h) by {
      assert forall i :: 0 <= i < |h| ==> IsAsciiAlnum(h[i]);
    }
    NormalizedExample();
    assert "validhandle" !in ReservedHandles by {
      if "validhandle" in ReservedHandles { ReservedShape("validhandle"); }
    }
    AcceptedWhenTrimmed(h);
  }

  /** The `valid` list for a batch of three inputs, element by element. */
  lemma ValidOfThree(a: string, b: string, c: string)
    ensures ValidOf([a, b, c])
      == (if AcceptedForm(a).Some? then [AcceptedForm(a).value] else [])
       + (if AcceptedForm(b).Some? then [AcceptedForm(b).value] else [])
       + (if AcceptedForm(c).Some? then [AcceptedForm(c).value] else [])
  {
    FilterMapThree(a, b, c, AcceptedForm, AcceptedForm(a), AcceptedForm(b), AcceptedForm(c));
  }

  /** The `errors` list for a batch of three inputs, element by element. */
  lemma ErrorsOfThree(a: string, b: string, c: string)
    ensures ErrorsOf([a, b, c])
      == (if ValidateHandle(a).Some? then [ValidateHandle(a).value] else [])
       + (if ValidateHandle(b).Some? then [ValidateHandle(b).value] else [])
       + (if ValidateHandle(c).Some? then [ValidateHandle(c).value] else [])
  {
    FilterMapThree(a, b, c, ValidateHandle, ValidateHandle(a), ValidateHandle(b), ValidateHandle(c));
  }

  /** What each input of the example batch contributes to `valid`. */
  lemma AcceptedFormExamples()
    ensures AcceptedForm("ab") == None
    ensures AcceptedForm("validHandle") == Some("validhandle")
    ensures AcceptedForm("admin") == None
  {
    ShortExample();
    AcceptedExample();
    NormalizedExample();
    ReservedExamples();
  }

  /** `["ab", "validHandle", "admin"]` yields the one valid handle "validhandle". */
  lemma MixedBatchValid()
    ensures ValidOf(["ab", "validHandle", "admin"]) == ["validhandle"]
  {
    ValidOfThree("ab", "validHandle", "admin");
    AcceptedFormExamples();
  }

  /** `["ab", "validHandle", "admin"]` yields two errors: too short, then reserved. */
  lemma MixedBatchErrors()
    ensures ErrorsOf(["ab", "validHandle", "admin"])
      == [ValidationError("ab", TooShort), ValidationError("admin", Reserved)]
  {
    ErrorsOfThree("ab", "validHandle", "admin");
    ShortExample();
    AcceptedExample();
    ReservedExamples();
  }
}
