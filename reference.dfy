// Reference: an assembly a model refers to; its Path reads "Default" as "~".

module References {
  import opened Wrappers
  import opened Known
  import opened Text

  const DefaultPath: string := "Default"

  /** The Path getter: every "Default" in the stored path becomes "~". */
  function ShownPath(stored: string): (r: string)
    ensures !Contains(r, DefaultPath)
    ensures !Contains(stored, DefaultPath) ==> r == stored
  {
    ReplaceRemovesAll(stored, DefaultPath, "~");
    var r := Replace(stored, DefaultPath, "~");
    assert !Contains(stored, DefaultPath) ==> r == stored by {
      if !Contains(stored, DefaultPath) {
        ReplaceAbsent(stored, DefaultPath, "~");
      }
    }
    r
  }

  /** The path "Default" reads back as "~". */
  lemma DefaultShownAsHome()
    ensures ShownPath(DefaultPath) == "~"
  {
    assert DefaultPath[..|DefaultPath|] == DefaultPath;
    assert DefaultPath[|DefaultPath|..] == [];
  }

  /** Each "Default" is replaced where it stands: the text before the first
      one is kept, the first one reads "~", and the rest reads on the same way. */
  lemma {:induction false} ShownPathReplacesFirst(a: string, b: string)
    requires !Contains(a, DefaultPath)
    ensures ShownPath(a + DefaultPath + b) == a + "~" + ShownPath(b)
  {
    var s := DefaultPath + b;
    assert a + DefaultPath + b == a + s;
    forall i | 0 <= i < |a|
      ensures !OccursAt(a + s, DefaultPath, i)
    {
      if i + |DefaultPath| <= |a| {
        assert !OccursAt(a, DefaultPath, i);
        assert (a + s)[i..i + |DefaultPath|] == a[i..i + |DefaultPath|];
      } else if i + |DefaultPath| <= |a + s| {
        var j := |a| - i;
        assert (a + s)[i..i + |DefaultPath|][j] == (a + s)[|a|] == 'D';
        assert DefaultPath[j] != 'D';
      }
    }
    ReplaceAfter(a, s, DefaultPath, "~");
    assert s[..|DefaultPath|] == DefaultPath;
    assert s[|DefaultPath|..] == b;
    assert Replace(s, DefaultPath, "~") == "~" + Replace(b, DefaultPath, "~");
  }

  class Reference {
    var assembly: Option<string>
    var path: string

    /** A new reference stores "Default" (the path validator accepts it). */
    constructor()
      ensures path == DefaultPath && assembly.None?
      ensures Path() == "~"
    {
      assembly := None;
      path := DefaultPath;
      DefaultShownAsHome();
    }

    /** The Path getter. Reading it leaves the stored path as it is. */
    function Path(): string
      reads this`path
    {
      ShownPath(path)
    }

    /** The Path setter: null and paths the validator rejects are refused. */
    method SetPath(value: Option<string>, validators: Validators) returns (o: Outcome)
      modifies this`path
      ensures value.None? ==> o == Failure(ArgumentNull)
      ensures value.Some? ==> (o == Pass <==> validators.isValidPath(value.value))
      ensures value.Some? && o != Pass ==> o == Failure(InvalidPath)
      ensures path == if o == Pass then value.value else old(path)
    {
      if value.None? {
        return Failure(ArgumentNull);
      }
      if !validators.isValidPath(value.value) {
        return Failure(InvalidPath);
      }
      path := value.value;
      o := Pass;
    }
  }
}
