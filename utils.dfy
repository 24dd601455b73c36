/** The three field validators of utils.py. Each returns normally or raises
    ValueError and changes nothing, so each is a function to an Outcome. */
module Utils {
  import opened Outcomes
  import Strptime

  /** The characters Python's `str.isspace` accepts, which `str.strip()`
      removes: the ASCII controls TAB to CR and FS to US, SPACE, NEL, NBSP,
      OGHAM SPACE MARK, EN QUAD to HAIR SPACE, LINE and PARAGRAPH SEPARATOR,
      NARROW NBSP, MEDIUM MATHEMATICAL SPACE and IDEOGRAPHIC SPACE. */
  predicate IsSpace(c: char) {
    var n := c as int;
    (0x09 <= n <= 0x0D) || (0x1C <= n <= 0x20) || n == 0x85 || n == 0xA0 || n == 0x1680
    || (0x2000 <= n <= 0x200A) || n == 0x2028 || n == 0x2029 || n == 0x202F || n == 0x205F
    || n == 0x3000
  }

  /** `s` without its leading whitespace. */
  function TrimStart(s: string): (r: string)
    ensures |r| <= |s| && r == s[|s| - |r|..]
    ensures forall i :: 0 <= i < |s| - |r| ==> IsSpace(s[i])
    ensures r != [] ==> !IsSpace(r[0])
  {
    if s != [] && IsSpace(s[0]) then TrimStart(s[1..]) else s
  }

  /** `s` without its trailing whitespace. */
  function TrimEnd(s: string): (r: string)
    ensures |r| <= |s| && r == s[..|r|]
    ensures forall i :: |r| <= i < |s| ==> IsSpace(s[i])
    ensures r != [] ==> !IsSpace(r[|r| - 1])
  {
    if s != [] && IsSpace(s[|s| - 1]) then TrimEnd(s[..|s| - 1]) else s
  }

  /** `s.strip()`: the text between the first and the last non-whitespace
      character, or "" when there is none. */
  function Strip(s: string): (r: string)
    ensures r == [] <==> forall i :: 0 <= i < |s| ==> IsSpace(s[i])
    ensures r != [] ==> !IsSpace(r[0]) && !IsSpace(r[|r| - 1])
  {
    var t := TrimStart(s);
    assert forall i :: |s| - |t| <= i < |s| ==> s[i] == t[i - (|s| - |t|)];
    TrimEnd(t)
  }

  /** `s.strip()` is `s` with its leading and trailing whitespace removed:
      a slice of `s` starting at `a`, with only whitespace around it. */
  lemma StripKeepsMiddle(s: string) returns (a: nat)
    ensures a + |Strip(s)| <= |s| && Strip(s) == s[a..a + |Strip(s)|]
    ensures forall i :: 0 <= i < a ==> IsSpace(s[i])
    ensures forall i :: a + |Strip(s)| <= i < |s| ==> IsSpace(s[i])
  {
    var t := TrimStart(s);
    a := |s| - |t|;
    var r := TrimEnd(t);
    assert r == Strip(s);
    assert t == s[a..];
    assert s[a..a + |r|] == t[..|r|];
  }

  /** validate_task_name: the name must keep some character after
      `strip()`. */
  function ValidateTaskName(taskName: string): (r: Outcome)
    ensures r.Pass? <==> exists i :: 0 <= i < |taskName| && !IsSpace(taskName[i])
    ensures r.Fail? ==> r == Fail(InvalidInput(NameField))
  {
    if Strip(taskName) == [] then Fail(InvalidInput(NameField)) else Pass
  }

  /** validate_due_date: `strptime(dueDate, "%Y-%m-%d")` must succeed;
      Strptime.AcceptedIff says for which texts it does. */
  function ValidateDueDate(dueDate: string): (r: Outcome)
    ensures r.Pass? <==> Strptime.Parse(dueDate).Some?
    ensures r.Fail? ==> r == Fail(InvalidInput(DueDateField))
  {
    if Strptime.Parse(dueDate).Some? then Pass else Fail(InvalidInput(DueDateField))
  }

  /** The due dates that pass are exactly the calendar dates written in one
      of the forms the pattern accepts. */
  lemma DueDateIff(dueDate: string)
    ensures ValidateDueDate(dueDate).Pass? <==>
            exists d: Strptime.Date, mf: Strptime.MonthForm, df: Strptime.DayForm ::
              Strptime.IsCalendarDate(d) && Strptime.FormFits(d, mf, df) && dueDate == Strptime.Render(d, mf, df)
  {
    Strptime.AcceptedIff(dueDate);
  }

  const Priorities: seq<string> := ["Low", "Medium", "High"]

  /** validate_priority: membership in the list, compared with `==`. */
  function ValidatePriority(priority: string): (r: Outcome)
    ensures r.Pass? <==> priority == "Low" || priority == "Medium" || priority == "High"
    ensures r.Fail? ==> r == Fail(InvalidInput(PriorityField))
  {
    if priority in Priorities then Pass else Fail(InvalidInput(PriorityField))
  }

  /** Surrounding whitespace does not make a name invalid. */
  lemma PaddedNameAccepted()
    ensures ValidateTaskName("  Buy milk\t").Pass?
  {
    assert !IsSpace("  Buy milk\t"[2]);
  }

  /** Whitespace alone makes a name invalid, whatever kind of whitespace it
      is. */
  lemma BlankNamesRejected()
    ensures ValidateTaskName("").Fail?
    ensures ValidateTaskName("   ").Fail?
    ensures ValidateTaskName("\t\n\U{3000}").Fail?
  {
  }

  /** The comparison is exact: other words and other letter cases fail. */
  lemma PriorityExamples()
    ensures ValidatePriority("Medium").Pass?
    ensures ValidatePriority("Urgent").Fail?
    ensures ValidatePriority("low").Fail?
    ensures ValidatePriority("HIGH").Fail?
    ensures ValidatePriority(" Low").Fail?
  {
  }

  lemma DueDateExamples()
    ensures ValidateDueDate("2024-05-01").Pass?
    ensures ValidateDueDate("2024-13-01").Fail?
  {
    Strptime.AcceptsPaddedDate();
    Strptime.RejectsMonth13();
  }
}
