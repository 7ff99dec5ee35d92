/**
 * The GLSL source text the built-in structure synthesizer renders for scalars,
 * vectors, matrices and opaque types, and a reader for the same fragment shapes.
 * The reader is the rendering's partner: reading a rendered struct gives back the
 * struct name and exactly the fields it was rendered from.
 */
module StructSource {
  import opened Wrappers
  import opened Text

  /** One rendered field: its type name and its single-letter name. */
  datatype Field = Field(typename: string, letter: char)

  /** Every swizzle set has at least `n` letters. */
  predicate SetsCover(swizzleSets: seq<string>, n: nat) {
    forall k :: 0 <= k < |swizzleSets| ==> |swizzleSets[k]| >= n
  }

  // ---------------------------------------------------------------------------
  // Rendering

  function HeaderLine(structTypename: string): string {
    "struct __" + structTypename + "__ {"
  }

  const FooterLine := "};"

  function FieldLine(f: Field): string {
    f.typename + " " + [f.letter] + ";"
  }

  /** The field lines, each ended by a line break. */
  function FieldsText(fields: seq<Field>): string
    decreases |fields|
  {
    if |fields| == 0 then "" else FieldLine(fields[0]) + "\n" + FieldsText(fields[1..])
  }

  /** A struct named `__<typename>__` declaring `fields` in order. */
  function StructText(typename: string, fields: seq<Field>): string {
    HeaderLine(typename) + "\n" + FieldsText(fields) + FooterLine + "\n"
  }

  /** The scalar fields: the first letter of every swizzle set, typed by the base type. */
  function ScalarFields(baseTypename: string, swizzleSets: seq<string>): (fields: seq<Field>)
    requires SetsCover(swizzleSets, 1)
    ensures |fields| == |swizzleSets|
    ensures forall k :: 0 <= k < |fields| ==> fields[k] == Field(baseTypename, swizzleSets[k][0])
  {
    seq(|swizzleSets|, k requires 0 <= k < |swizzleSets| => Field(baseTypename, swizzleSets[k][0]))
  }

  /** The first `n` letters of one swizzle set, typed by the base type. */
  function SetFields(baseTypename: string, swizzleSet: string, n: nat): (fields: seq<Field>)
    requires |swizzleSet| >= n
    ensures |fields| == n
    ensures forall i :: 0 <= i < n ==> fields[i] == Field(baseTypename, swizzleSet[i])
  {
    seq(n, i requires 0 <= i < n => Field(baseTypename, swizzleSet[i]))
  }

  /** The vector fields: for every swizzle set in order, its first `n` letters. */
  function VectorFields(baseTypename: string, swizzleSets: seq<string>, n: nat): (fields: seq<Field>)
    requires SetsCover(swizzleSets, n)
    ensures |fields| == |swizzleSets| * n
    decreases |swizzleSets|
  {
    if |swizzleSets| == 0 then []
    else
      var rest := VectorFields(baseTypename, swizzleSets[1..], n);
      assert |rest| == (|swizzleSets| - 1) * n;
      SetFields(baseTypename, swizzleSets[0], n) + rest
  }

  function ScalarSource(typename: string, baseTypename: string, swizzleSets: seq<string>): string
    requires SetsCover(swizzleSets, 1)
  {
    StructText(typename, ScalarFields(baseTypename, swizzleSets))
  }

  function VectorSource(typename: string, baseTypename: string, swizzleSets: seq<string>, n: nat): string
    requires SetsCover(swizzleSets, n)
  {
    StructText(typename, VectorFields(baseTypename, swizzleSets, n))
  }

  const PlaceholderPrefix := "struct __"
  const PlaceholderSuffix := "__ { void __opaque__; };"

  /** The one-line struct with a single placeholder member, used for matrices and
      opaque types, which have no fields. */
  function PlaceholderSource(typename: string): (text: string)
    ensures ReadPlaceholder(text) == Some(typename)
  {
    var text := PlaceholderPrefix + typename + PlaceholderSuffix;
    assert text[..|PlaceholderPrefix|] == PlaceholderPrefix;
    assert text[|text| - |PlaceholderSuffix|..] == PlaceholderSuffix;
    assert text[|PlaceholderPrefix|..|text| - |PlaceholderSuffix|] == typename;
    text
  }

  lemma {:induction false} FieldsTextAppend(a: seq<Field>, b: seq<Field>)
    ensures FieldsText(a + b) == FieldsText(a) + FieldsText(b)
    decreases |a|
  {
    if |a| == 0 {
      assert a + b == b;
    } else {
      assert (a + b)[1..] == a[1..] + b;
      FieldsTextAppend(a[1..], b);
    }
  }

  lemma FieldsTextSingle(f: Field)
    ensures FieldsText([f]) == f.typename + " " + [f.letter] + ";\n"
  {
    assert [f][1..] == [];
  }

  lemma {:induction false} VectorFieldsSnoc(baseTypename: string, swizzleSets: seq<string>, n: nat, k: nat)
    requires SetsCover(swizzleSets, n) && k < |swizzleSets|
    ensures VectorFields(baseTypename, swizzleSets[..k + 1], n)
         == VectorFields(baseTypename, swizzleSets[..k], n) + SetFields(baseTypename, swizzleSets[k], n)
    decreases k
  {
    if k == 0 {
      assert swizzleSets[..1][1..] == [];
    } else {
      assert swizzleSets[..k + 1][1..] == swizzleSets[1..][..k];
      assert swizzleSets[..k][1..] == swizzleSets[1..][..k - 1];
      VectorFieldsSnoc(baseTypename, swizzleSets[1..], n, k - 1);
    }
  }

  /** Renders a scalar's struct the way the synthesizer's builder does: the header,
      one field line per swizzle set, the closing line. */
  method RenderScalar(typename: string, baseTypename: string, swizzleSets: seq<string>) returns (text: string)
    requires SetsCover(swizzleSets, 1)
    ensures text == ScalarSource(typename, baseTypename, swizzleSets)
  {
    var header := "struct __" + typename + "__ {\n";
    assert header == HeaderLine(typename) + "\n";
    ghost var fields := ScalarFields(baseTypename, swizzleSets);
    var sb := header;
    var k := 0;
    while k < |swizzleSets|
      invariant 0 <= k <= |swizzleSets|
      invariant sb == header + FieldsText(fields[..k])
    {
      var f := Field(baseTypename, swizzleSets[k][0]);
      assert fields[..k + 1] == fields[..k] + [f];
      FieldsTextAppend(fields[..k], [f]);
      FieldsTextSingle(f);
      var line := baseTypename + " " + [swizzleSets[k][0]] + ";\n";
      sb := sb + line;
      k := k + 1;
    }
    assert fields[..k] == fields;
    sb := sb + "};\n";
    text := sb;
  }

  /** Appends the field lines for the first `n` letters of one swizzle set. */
  method AppendSetFields(sb: string, baseTypename: string, swizzleSet: string, n: nat) returns (sb': string)
    requires |swizzleSet| >= n
    ensures sb' == sb + FieldsText(SetFields(baseTypename, swizzleSet, n))
  {
    sb' := sb;
    var i := 0;
    while i < n
      invariant 0 <= i <= n
      invariant sb' == sb + FieldsText(SetFields(baseTypename, swizzleSet, n)[..i])
    {
      var f := Field(baseTypename, swizzleSet[i]);
      assert SetFields(baseTypename, swizzleSet, n)[..i + 1] == SetFields(baseTypename, swizzleSet, n)[..i] + [f];
      FieldsTextAppend(SetFields(baseTypename, swizzleSet, n)[..i], [f]);
      FieldsTextSingle(f);
      var line := baseTypename + " " + [swizzleSet[i]] + ";\n";
      sb' := sb' + line;
      i := i + 1;
    }
    assert SetFields(baseTypename, swizzleSet, n)[..n] == SetFields(baseTypename, swizzleSet, n);
  }

  /** Renders a vector's struct the way the synthesizer's builder does: for every
      swizzle set, one field line for each of its first `n` letters. */
  method RenderVector(typename: string, baseTypename: string, swizzleSets: seq<string>, n: nat) returns (text: string)
    requires SetsCover(swizzleSets, n)
    ensures text == VectorSource(typename, baseTypename, swizzleSets, n)
  {
    var header := "struct __" + typename + "__ {\n";
    assert header == HeaderLine(typename) + "\n";
    var sb := header;
    var k := 0;
    while k < |swizzleSets|
      invariant 0 <= k <= |swizzleSets|
      invariant sb == header + FieldsText(VectorFields(baseTypename, swizzleSets[..k], n))
    {
      VectorFieldsSnoc(baseTypename, swizzleSets, n, k);
      FieldsTextAppend(VectorFields(baseTypename, swizzleSets[..k], n), SetFields(baseTypename, swizzleSets[k], n));
      sb := AppendSetFields(sb, baseTypename, swizzleSets[k], n);
      k := k + 1;
    }
    assert swizzleSets[..k] == swizzleSets;
    sb := sb + "};\n";
    text := sb;
  }

  // ---------------------------------------------------------------------------
  // Reading

  function ReadHeader(line: string): Option<string> {
    var prefix := "struct __";
    var suffix := "__ {";
    if |line| >= |prefix| + |suffix| && line[..|prefix|] == prefix && line[|line| - |suffix|..] == suffix
    then Some(line[|prefix|..|line| - |suffix|])
    else None
  }

  function ReadField(line: string): Option<Field> {
    if |line| >= 3 && line[|line| - 1] == ';' && line[|line| - 3] == ' '
    then Some(Field(line[..|line| - 3], line[|line| - 2]))
    else None
  }

  function ReadFields(lines: seq<string>): Option<seq<Field>>
    decreases |lines|
  {
    if |lines| == 0 then Some([])
    else match (ReadField(lines[0]), ReadFields(lines[1..]))
      case (Some(f), Some(fs)) => Some([f] + fs)
      case _ => None
  }

  /** The struct name and fields of a rendered struct fragment, if `text` has that shape. */
  function ReadStruct(text: string): Option<(string, seq<Field>)> {
    var lines := Split('\n', text);
    if |lines| < 3 || lines[|lines| - 1] != "" || lines[|lines| - 2] != FooterLine then None
    else match (ReadHeader(lines[0]), ReadFields(lines[1..|lines| - 2]))
      case (Some(name), Some(fields)) => Some((name, fields))
      case _ => None
  }

  /** The type name inside a placeholder struct, if `text` has that shape. */
  function ReadPlaceholder(text: string): Option<string> {
    if |text| >= |PlaceholderPrefix| + |PlaceholderSuffix|
       && text[..|PlaceholderPrefix|] == PlaceholderPrefix
       && text[|text| - |PlaceholderSuffix|..] == PlaceholderSuffix
    then Some(text[|PlaceholderPrefix|..|text| - |PlaceholderSuffix|])
    else None
  }

  // ---------------------------------------------------------------------------
  // Round trips

  /** No line break inside a type name or a field. */
  predicate SingleLine(typename: string, fields: seq<Field>) {
    && Lacks(typename, '\n')
    && forall k :: 0 <= k < |fields| ==> Lacks(fields[k].typename, '\n') && fields[k].letter != '\n'
  }

  function FieldLines(fields: seq<Field>): (lines: seq<string>)
    ensures |lines| == |fields|
    ensures forall k :: 0 <= k < |fields| ==> lines[k] == FieldLine(fields[k])
  {
    seq(|fields|, k requires 0 <= k < |fields| => FieldLine(fields[k]))
  }

  lemma {:induction false} JoinFieldLines(fields: seq<Field>, tail: seq<string>)
    requires |tail| > 0
    ensures Join('\n', FieldLines(fields) + tail) == FieldsText(fields) + Join('\n', tail)
    decreases |fields|
  {
    if |fields| > 0 {
      var lines := FieldLines(fields) + tail;
      assert lines[1..] == FieldLines(fields[1..]) + tail;
      JoinFieldLines(fields[1..], tail);
    } else {
      assert FieldLines(fields) + tail == tail;
    }
  }

  lemma {:induction false} ReadFieldLines(fields: seq<Field>)
    ensures ReadFields(FieldLines(fields)) == Some(fields)
    decreases |fields|
  {
    if |fields| > 0 {
      var f := fields[0];
      var line := FieldLine(f);
      assert line[..|line| - 3] == f.typename;
      assert FieldLines(fields)[1..] == FieldLines(fields[1..]);
      ReadFieldLines(fields[1..]);
      assert [f] + fields[1..] == fields;
    }
  }

  /** The lines of a rendered struct: header, one line per field, footer, and the
      empty remainder after the final line break. */
  function StructLines(typename: string, fields: seq<Field>): seq<string> {
    [HeaderLine(typename)] + FieldLines(fields) + [FooterLine, ""]
  }

  lemma StructTextLines(typename: string, fields: seq<Field>)
    ensures Join('\n', StructLines(typename, fields)) == StructText(typename, fields)
  {
    var lines := StructLines(typename, fields);
    JoinFieldLines(fields, [FooterLine, ""]);
    assert [FooterLine, ""][1..] == [""];
    assert Join('\n', [FooterLine, ""]) == FooterLine + "\n";
    assert lines[1..] == FieldLines(fields) + [FooterLine, ""];
  }

  lemma StructLinesSingle(typename: string, fields: seq<Field>)
    requires SingleLine(typename, fields)
    ensures forall i :: 0 <= i < |StructLines(typename, fields)| ==> Lacks(StructLines(typename, fields)[i], '\n')
  {
    var lines := StructLines(typename, fields);
    forall i | 0 <= i < |lines|
      ensures Lacks(lines[i], '\n')
    {
      if 1 <= i <= |fields| {
        assert lines[i] == FieldLine(fields[i - 1]);
      }
    }
  }

  lemma ReadHeaderLine(typename: string)
    ensures ReadHeader(HeaderLine(typename)) == Some(typename)
  {
    var header := HeaderLine(typename);
    assert header[..9] == "struct __";
    assert header[|header| - 4..] == "__ {";
    assert header[9..|header| - 4] == typename;
  }

  /** Reading a rendered struct gives back its name and exactly its fields, in order. */
  lemma ReadStructText(typename: string, fields: seq<Field>)
    requires SingleLine(typename, fields)
    ensures ReadStruct(StructText(typename, fields)) == Some((typename, fields))
  {
    var lines := StructLines(typename, fields);
    StructTextLines(typename, fields);
    StructLinesSingle(typename, fields);
    SplitJoin('\n', lines);
    assert Split('\n', StructText(typename, fields)) == lines;
    ReadHeaderLine(typename);
    assert lines[1..|lines| - 2] == FieldLines(fields);
    ReadFieldLines(fields);
  }

  /** The rendered scalar struct declares one field per swizzle set, named by the
      set's first letter and typed by the base type. */
  lemma ScalarSourceFields(typename: string, baseTypename: string, swizzleSets: seq<string>)
    requires SetsCover(swizzleSets, 1)
    requires SingleLine(typename, ScalarFields(baseTypename, swizzleSets))
    ensures ReadStruct(ScalarSource(typename, baseTypename, swizzleSets)).Some?
    ensures var (name, fields) := ReadStruct(ScalarSource(typename, baseTypename, swizzleSets)).value;
            && name == typename
            && |fields| == |swizzleSets|
            && forall k :: 0 <= k < |fields| ==> fields[k] == Field(baseTypename, swizzleSets[k][0])
  {
    ReadStructText(typename, ScalarFields(baseTypename, swizzleSets));
  }

  /** Dividing by `n` after taking away one block of `n`. */
  lemma DivModStep(j: int, n: int)
    requires n > 0 && j >= n
    ensures (j - n) / n == j / n - 1 && (j - n) % n == j % n
  {
    var q, r := (j - n) / n, (j - n) % n;
    assert j == (q + 1) * n + r;
    DivModUnique(j, n, q + 1, r);
  }

  lemma DivModUnique(j: int, n: int, q: int, r: int)
    requires n > 0 && 0 <= r < n && j == q * n + r
    ensures j / n == q && j % n == r
  {
    var q', r' := j / n, j % n;
    assert j == q' * n + r';
    if q' > q {
      MulAtLeast(q' - q, n);
    } else if q' < q {
      MulAtLeast(q - q', n);
    }
  }

  lemma MulAtLeast(a: int, n: int)
    requires a >= 1 && n > 0
    ensures a * n >= n
  {
  }

  /** Field `j` of a vector struct is letter `j % n` of swizzle set `j / n`: the sets
      appear in order, each contributing its first `n` letters and no others. */
  lemma {:induction false} VectorFieldAt(baseTypename: string, swizzleSets: seq<string>, n: nat, j: nat)
    requires n > 0 && SetsCover(swizzleSets, n)
    requires j < |swizzleSets| * n
    ensures j / n < |swizzleSets| && j % n < n
    ensures VectorFields(baseTypename, swizzleSets, n)[j] == Field(baseTypename, swizzleSets[j / n][j % n])
    decreases |swizzleSets|
  {
    if j < n {
      DivModUnique(j, n, 0, j);
    } else {
      DivModStep(j, n);
      assert |swizzleSets| * n == (|swizzleSets| - 1) * n + n;
      VectorFieldAt(baseTypename, swizzleSets[1..], n, j - n);
    }
  }

  /** The rendered vector struct declares `|swizzleSets| * n` fields: for each set in
      order its first `n` letters, never a letter at position `n` or beyond. */
  lemma VectorSourceFields(typename: string, baseTypename: string, swizzleSets: seq<string>, n: nat)
    requires n > 0 && SetsCover(swizzleSets, n)
    requires SingleLine(typename, VectorFields(baseTypename, swizzleSets, n))
    ensures ReadStruct(VectorSource(typename, baseTypename, swizzleSets, n)).Some?
    ensures var (name, fields) := ReadStruct(VectorSource(typename, baseTypename, swizzleSets, n)).value;
            && name == typename
            && |fields| == |swizzleSets| * n
            && forall j :: 0 <= j < |fields| ==>
                 j / n < |swizzleSets| && j % n < n
                 && fields[j] == Field(baseTypename, swizzleSets[j / n][j % n])
  {
    ReadStructText(typename, VectorFields(baseTypename, swizzleSets, n));
    forall j | 0 <= j < |swizzleSets| * n
      ensures j / n < |swizzleSets| && j % n < n
      ensures VectorFields(baseTypename, swizzleSets, n)[j] == Field(baseTypename, swizzleSets[j / n][j % n])
    {
      VectorFieldAt(baseTypename, swizzleSets, n, j);
    }
  }

  /** A scalar renders exactly like a one-component vector of the same name. */
  lemma {:induction false} ScalarIsOneComponentVector(baseTypename: string, swizzleSets: seq<string>)
    requires SetsCover(swizzleSets, 1)
    ensures VectorFields(baseTypename, swizzleSets, 1) == ScalarFields(baseTypename, swizzleSets)
    decreases |swizzleSets|
  {
    if |swizzleSets| > 0 {
      ScalarIsOneComponentVector(baseTypename, swizzleSets[1..]);
      assert ScalarFields(baseTypename, swizzleSets)
          == [Field(baseTypename, swizzleSets[0][0])] + ScalarFields(baseTypename, swizzleSets[1..]);
    }
  }

  /** With the standard letter sets, a two-component vector exposes x, y, r, g, s, t. */
  lemma TwoComponentExample()
    ensures VectorFields("float", ["xyzw", "rgba", "stpq"], 2)
         == [Field("float", 'x'), Field("float", 'y'), Field("float", 'r'),
             Field("float", 'g'), Field("float", 's'), Field("float", 't')]
  {
    var sets := ["xyzw", "rgba", "stpq"];
    assert sets[1..] == ["rgba", "stpq"];
    assert sets[1..][1..] == ["stpq"];
    assert sets[1..][1..][1..] == [];
  }
}
