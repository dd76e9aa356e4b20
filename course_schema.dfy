/** The request schemas for courses: a name of 1 to 200 characters, a
    description of at most 2000, and a colour of the form `#RRGGBB`. */
module CourseSchema {
  import opened Common
  import opened CourseModel

  const DescriptionLength: nat := 2000

  predicate IsHexDigit(c: char)
  {
    ('0' <= c <= '9') || ('a' <= c <= 'f') || ('A' <= c <= 'F')
  }

  /** The field pattern `^#[0-9A-Fa-f]{6}$` as the schema library applies
      it: `$` matches only at the very end of the text. */
  predicate IsHexColor(s: string)
  {
    |s| == 7 && s[0] == '#' && forall i :: 1 <= i < 7 ==> IsHexDigit(s[i])
  }

  /** Python's `re.match` with the same pattern: there `$` also matches just
      before a single final newline. */
  predicate ReMatchesHexColor(s: string)
  {
    IsHexColor(s) || (|s| == 8 && s[7] == '\n' && IsHexColor(s[..7]))
  }

  const PatternMessage: string := "String should match pattern '^#[0-9A-Fa-f]{6}$'"
  const ColorMessage: string := "Color must be a valid hex color code (e.g., #3B82F6)"

  /** The colour field: the field pattern is checked first, then the
      `validate_color` validator on what passed it. */
  function ValidateColor(v: string): (r: Result<string, string>)
    ensures r.Ok? <==> IsHexColor(v)
    ensures r.Ok? ==> r.value == v && |v| == ColorLength
    ensures r.Err? ==> r.error == PatternMessage
  {
    if !IsHexColor(v) then Err(PatternMessage)
    else if !ReMatchesHexColor(v) then Err(ColorMessage)
    else Ok(v)
  }

  /** The validator never rejects a colour the pattern accepted, and on its
      own it would accept a colour followed by a newline, which the pattern
      rejects. */
  lemma ValidatorAddsNothing()
    ensures forall s :: IsHexColor(s) ==> ReMatchesHexColor(s)
    ensures ReMatchesHexColor("#3B82F6\n") && !IsHexColor("#3B82F6\n")
    ensures ValidateColor("#3B82F6\n").Err?
  {
    var s := "#3B82F6\n";
    assert s[..7] == "#3B82F6";
  }

  /** The default colour passes its own pattern and fits the column. */
  lemma DefaultColorValid()
    ensures IsHexColor(DefaultColor) && |DefaultColor| <= ColorLength
    ensures ValidateColor(DefaultColor) == Ok(DefaultColor)
  {
  }

  predicate NameRejected(name: Option<string>)
  {
    name.Some? && !(1 <= |name.value| <= NameLength)
  }

  predicate DescriptionRejected(description: Option<string>)
  {
    description.Some? && |description.value| > DescriptionLength
  }

  predicate ColorRejected(color: Option<string>)
  {
    color.Some? && !IsHexColor(color.value)
  }

  /** A create request as received: `None` marks an omitted field. */
  datatype CourseCreateInput = CourseCreateInput(name: Option<string>, description: Option<string>, color: Option<string>)

  /** A validated create request. */
  datatype CourseCreate = CourseCreate(name: string, description: Option<string>, color: string)

  /** The fields of an update request; `None` leaves a field unchanged. */
  datatype CourseUpdate = CourseUpdate(name: Option<string>, description: Option<string>, color: Option<string>,
                                       isArchived: Option<bool>)

  /** The fields of a create request that fail, in field order; the name is
      required. */
  function CreateErrors(input: CourseCreateInput): (r: seq<string>)
    ensures "name" in r <==> input.name.None? || NameRejected(input.name)
    ensures "description" in r <==> DescriptionRejected(input.description)
    ensures "color" in r <==> ColorRejected(input.color)
    ensures forall f :: f in r ==> f in ["name", "description", "color"]
  {
    (if input.name.None? || NameRejected(input.name) then ["name"] else [])
    + (if DescriptionRejected(input.description) then ["description"] else [])
    + (if input.color.Some? && ValidateColor(input.color.value).Err? then ["color"] else [])
  }

  /** `CourseCreate`: an accepted request has a name that fits, a description
      that fits, and a valid colour, the default one when none was sent. */
  function ValidateCourseCreate(input: CourseCreateInput): (r: Result<CourseCreate, seq<string>>)
    ensures r.Err? <==> input.name.None? || NameRejected(input.name) || DescriptionRejected(input.description)
                        || ColorRejected(input.color)
    ensures r.Err? ==> r.error == CreateErrors(input)
    ensures r.Ok? ==> 1 <= |r.value.name| <= NameLength && IsHexColor(r.value.color)
    ensures r.Ok? ==> r.value.description.Some? ==> |r.value.description.value| <= DescriptionLength
    ensures r.Ok? ==> r.value.name == input.name.value && r.value.description == input.description
    ensures r.Ok? ==> r.value.color == (if input.color.Some? then input.color.value else DefaultColor)
  {
    DefaultColorValid();
    var errors := CreateErrors(input);
    if errors != [] then Err(errors)
    else Ok(CourseCreate(input.name.value, input.description,
                         if input.color.Some? then input.color.value else DefaultColor))
  }

  /** The fields of an update request that fail, in field order. */
  function UpdateErrors(input: CourseUpdate): (r: seq<string>)
    ensures "name" in r <==> NameRejected(input.name)
    ensures "description" in r <==> DescriptionRejected(input.description)
    ensures "color" in r <==> ColorRejected(input.color)
    ensures forall f :: f in r ==> f in ["name", "description", "color"]
  {
    (if NameRejected(input.name) then ["name"] else [])
    + (if DescriptionRejected(input.description) then ["description"] else [])
    + (if input.color.Some? && ValidateColor(input.color.value).Err? then ["color"] else [])
  }

  /** `CourseUpdate`: every field optional, every sent field held to the
      create bounds. Nothing is rewritten. */
  function ValidateCourseUpdate(input: CourseUpdate): (r: Result<CourseUpdate, seq<string>>)
    ensures r.Err? <==> NameRejected(input.name) || DescriptionRejected(input.description) || ColorRejected(input.color)
    ensures r.Err? ==> r.error == UpdateErrors(input)
    ensures r.Ok? ==> r.value == input
  {
    var errors := UpdateErrors(input);
    if errors != [] then Err(errors) else Ok(input)
  }

  /** An empty update request is always accepted. */
  lemma EmptyUpdateAccepted()
    ensures ValidateCourseUpdate(CourseUpdate(None, None, None, None)).Ok?
  {
  }
}
