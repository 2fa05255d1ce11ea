/**
 * The `make:repository` generator command: its constant surface and the
 * `replaceClass` step, which derives the entity name, plans the Artisan
 * commands to issue and fills the two placeholders of the stub. Issuing the
 * commands is modelled as the ordered list of command lines.
 */
module MakeCommand {
  import opened Wrappers
  import opened Php

  const CommandName: string := "make:repository"
  const Description: string := "Create a new repository"
  const GeneratedType: string := "Repository"
  const ClassPlaceholder: string := "{{ class }}"
  const EntityPlaceholder: string := "{{ entity }}"

  /** `getStub()`, relative to the command's own directory `dir`. */
  function StubPath(dir: string): (path: string)
    ensures |path| == |dir| + 25 && path[..|dir|] == dir && path[|dir|..] == "/../stubs/repository.stub"
  {
    dir + "/../stubs/repository.stub"
  }

  /** `getDefaultNamespace($rootNamespace)`. */
  function DefaultNamespace(rootNamespace: string): (ns: string)
    ensures |ns| == |rootNamespace| + 13 && ns[..|rootNamespace|] == rootNamespace && ns[|rootNamespace|..] == "\\Repositories"
  {
    rootNamespace + "\\Repositories"
  }

  datatype ArgumentMode = Required | Optional
  datatype ArgumentSpec = ArgumentSpec(name: string, mode: ArgumentMode, description: string)

  datatype ValueMode = ValueNone | ValueRequired | ValueOptional
  datatype OptionSpec = OptionSpec(
    name: string,
    shortcut: Option<string>,
    mode: ValueMode,
    description: string,
    default: Option<Value>)

  /** `getArguments()`. */
  function Arguments(): seq<ArgumentSpec>
  {
    [ArgumentSpec("name", Required, "The name of the repository.")]
  }

  /** `getOptions()`. */
  function Options(): seq<OptionSpec>
  {
    [ OptionSpec("m", None, ValueNone, "Creating a database migration", None),
      OptionSpec("ms", None, ValueNone, "Creating a database migration and seed", None) ]
  }

  /**
   * The command is `make:repository` and generates a `Repository`, the same
   * word `replaceClass` removes from the name; one required argument `name`;
   * two value-less flags `m` and `ms`, in that order.
   */
  lemma CommandSurface()
    ensures CommandName == "make:" + "repository" && Description == "Create a new repository"
    ensures GeneratedType == RepositoryWord
    ensures |Arguments()| == 1 && Arguments()[0].name == "name" && Arguments()[0].mode == Required
    ensures |Options()| == 2 && Options()[0].name == "m" && Options()[1].name == "ms"
    ensures forall o :: o in Options() ==> o.mode == ValueNone && o.shortcut == None && o.default == None
  {
  }

  const RepositoryWord: string := "Repository"

  /** The entity: the name with every occurrence of `Repository` removed. */
  function Entity(name: string): (entity: string)
    ensures |entity| == |name| - |RepositoryWord| * Occurrences(name, RepositoryWord)
  {
    ReplaceLength(name, RepositoryWord, "");
    StrReplace(name, RepositoryWord, "")
  }

  /** `Repository` begins with a character it does not contain again. */
  lemma RepositoryWordStartsUniquely()
    ensures RepositoryWord != [] && RepositoryWord[0] !in RepositoryWord[1..]
  {
  }

  /** Two occurrences of `Repository` can never overlap. */
  lemma RepositoryWordBorderFree()
    ensures BorderFree(RepositoryWord)
  {
    var p := RepositoryWord;
    RepositoryWordStartsUniquely();
    forall k | 0 < k < |p|
      ensures p[k..] != p[..|p| - k]
    {
      assert p[k] in p[1..];
      assert p[k..][0] != p[..|p| - k][0];
    }
  }

  /**
   * Every `Repository` is removed: a name made of `Repository`-free pieces
   * joined by `Repository` gives the pieces run together.
   */
  lemma EntityRemovesEvery(segs: seq<string>)
    requires forall i :: 0 <= i < |segs| ==> !Occurs(segs[i], RepositoryWord)
    ensures Entity(Join(segs, RepositoryWord)) == Concat(segs)
  {
    RepositoryWordBorderFree();
    ReplaceJoin(segs, RepositoryWord, "");
    JoinEmpty(segs);
  }

  /** A name that ends in `Repository` and contains it nowhere else gives its prefix. */
  lemma EntityOfRepositoryName(e: string)
    requires !Occurs(e, RepositoryWord)
    ensures Entity(e + RepositoryWord) == e
  {
    RepositoryWordStartsUniquely();
    ReplaceTrailing(e, RepositoryWord, "");
    assert e + "" == e;
  }

  /** Both occurrences go: `UserRepositoryRepository` gives `User`. */
  lemma DoubleRepositoryEntity(name: string)
    requires name == "UserRepositoryRepository"
    ensures Entity(name) == "User"
  {
    var segs: seq<string> := ["User", "", ""];
    var w := RepositoryWord;
    assert name == Join(segs, w) by {
      assert segs[1..] == ["", ""] && segs[1..][1..] == [""];
      assert Join([""], w) == "";
      assert Join(["", ""], w) == "" + w + "";
      assert Join(segs, w) == "User" + w + ("" + w + "");
    }
    MissingFirstCharacter("User", RepositoryWord);
    EntityRemovesEvery(segs);
    assert Concat(segs) == "User" by {
      assert Concat(segs[1..]) == "";
    }
  }

  lemma UserRepositoryEntity()
    ensures Entity("UserRepository") == "User"
  {
    assert !Occurs("User", RepositoryWord);
    assert "User" + RepositoryWord == "UserRepository";
    EntityOfRepositoryName("User");
  }

  /**
   * Removing a `p` that follows `c + x` joins `c + x` to what comes after;
   * nothing already consumed is scanned again.
   */
  lemma RemovalJoins(c: char, x: string, p: string, tail: string)
    requires p != [] && p[0] !in p[1..]
    requires c == p[0] && p[0] !in x && 1 + |x| < |p|
    requires !Occurs(tail, p)
    ensures StrReplace([c] + (x + (p + tail)), p, "") == [c] + (x + tail)
  {
    var s4 := p + tail;
    var s0 := [c] + (x + s4);
    ReplaceLeadingMatch(p, tail, "");
    assert "" + tail == tail;
    ReplaceAfterPlainPrefix(x, s4, p, "");
    assert StrReplace(s0, p, "") == [c] + StrReplace(x + s4, p, "") by {
      var k := 1 + |x|;
      assert s0[..|p|] != p by {
        assert s0[k] == p[0];
        assert p[1..][k - 1] == p[k];
      }
      ReplaceStepSkip(s0, p, "");
      assert s0[1..] == x + s4;
    }
  }

  /** The pieces of the single-pass example below. */
  lemma SinglePassPieces(name: string)
    requires name == "RepoRepositorysitory"
    ensures name == ['R'] + ("epo" + (RepositoryWord + "sitory"))
    ensures ['R'] + ("epo" + "sitory") == RepositoryWord
    ensures 'R' !in "epo" && 'R' !in "sitory"
  {
  }

  /**
   * The removal is a single pass: text brought together by a removal is not
   * scanned again, so the entity may still contain `Repository`.
   */
  lemma EntityMayStillContainRepositoryWord(name: string)
    requires name == "RepoRepositorysitory"
    ensures Entity(name) == RepositoryWord
  {
    SinglePassPieces(name);
    RepositoryWordStartsUniquely();
    MissingFirstCharacter("sitory", RepositoryWord);
    RemovalJoins('R', "epo", RepositoryWord, "sitory");
  }

  /** The ` -m` suffix of the model command: either flag asks for a migration. */
  function MigrationFlag(m: bool, ms: bool): (flag: string)
    ensures flag == " -m" <==> m || ms
    ensures flag == "" <==> !(m || ms)
  {
    if m || ms then " -m" else ""
  }

  /** The stub with `{{ class }}` replaced first, then `{{ entity }}`. */
  function Render(stub: string, name: string): string
  {
    StrReplace(StrReplace(stub, ClassPlaceholder, name), EntityPlaceholder, Entity(name))
  }

  /**
   * `replaceClass`, after the parent class has filled the stub. `name` is
   * the `name` argument; `commands` are the Artisan command lines in the
   * order they are issued.
   */
  method ReplaceClass(stub: string, name: string, m: bool, ms: bool)
    returns (commands: seq<string>, output: string)
    ensures |commands| == (if ms then 2 else 1)
    ensures commands[|commands| - 1] == "make:model " + Entity(name) + MigrationFlag(m, ms)
    ensures ms ==> commands[0] == "make:seeder " + Entity(name) + "Seeder"
    ensures output == Render(stub, name)
  {
    var entity := Entity(name);
    var migrate := MigrationFlag(m, ms);
    commands := [];
    if ms {
      commands := commands + ["make:seeder " + entity + "Seeder"];
    }
    commands := commands + ["make:model " + entity + migrate];
    output := StrReplace(StrReplace(stub, ClassPlaceholder, name), EntityPlaceholder, entity);
  }

  /** A stub without placeholders is written out unchanged. */
  lemma RenderWithoutPlaceholders(stub: string, name: string)
    requires !Occurs(stub, ClassPlaceholder) && !Occurs(stub, EntityPlaceholder)
    ensures Render(stub, name) == stub
  {
    NoOccurrenceUnchanged(stub, ClassPlaceholder, name);
    NoOccurrenceUnchanged(stub, EntityPlaceholder, Entity(name));
  }

  /**
   * The replacements are sequential: an `{{ entity }}` brought in by the
   * class name is itself replaced by the entity.
   */
  lemma ClassReplacedBeforeEntity(name: string)
    requires name == "A{{ entity }}"
    ensures Render(ClassPlaceholder, name) == ['A'] + name
  {
    var e := EntityPlaceholder;
    assert name == ['A'] + e && 'R' !in name by {
      assert forall i :: 0 <= i < |name| ==> name[i] != 'R';
    }
    MissingFirstCharacter(name, RepositoryWord);
    NoOccurrenceUnchanged(name, RepositoryWord, "");
    assert Entity(name) == name;
    ReplaceWhole(ClassPlaceholder, name);
    assert name[..|e|] != e by { assert name[0] != e[0]; }
    ReplaceStepSkip(name, e, name);
    assert name[1..] == e;
    ReplaceWhole(e, name);
  }

  /** Neither placeholder can overlap itself. */
  lemma PlaceholdersBorderFree()
    ensures BorderFree(ClassPlaceholder) && BorderFree(EntityPlaceholder)
  {
    var c, e := ClassPlaceholder, EntityPlaceholder;
    assert forall i :: 2 <= i < |c| ==> c[i] != '{';
    forall k | 0 < k < |c|
      ensures c[k..] != c[..|c| - k]
    {
      if k == 1 {
        assert c[k..][1] != c[..|c| - k][1];
      } else {
        assert c[k..][0] != c[..|c| - k][0];
      }
    }
    assert forall i :: 2 <= i < |e| ==> e[i] != '{';
    forall k | 0 < k < |e|
      ensures e[k..] != e[..|e| - k]
    {
      if k == 1 {
        assert e[k..][1] != e[..|e| - k][1];
      } else {
        assert e[k..][0] != e[..|e| - k][0];
      }
    }
  }

  /** Text in which no `{` is directly followed by another, as in PHP code. */
  predicate NoDoubleBrace(s: string)
  {
    forall i :: 0 <= i < |s| - 1 ==> !(s[i] == '{' && s[i + 1] == '{')
  }

  /** Such text holds neither placeholder, since both start with `{{`. */
  lemma DoubleBraceFree(s: string)
    requires NoDoubleBrace(s)
    ensures !Occurs(s, ClassPlaceholder) && !Occurs(s, EntityPlaceholder)
  {
    var c, e := ClassPlaceholder, EntityPlaceholder;
    forall i: nat | i <= |s|
      ensures !OccursAt(s, c, i) && !OccursAt(s, e, i)
    {
      if i + 2 <= |s| {
        if s[i] != '{' {
          if i + |c| <= |s| { assert s[i..i + |c|][0] != c[0]; }
          if i + |e| <= |s| { assert s[i..i + |e|][0] != e[0]; }
        } else {
          assert s[i + 1] != '{';
          if i + |c| <= |s| { assert s[i..i + |c|][1] != c[1]; }
          if i + |e| <= |s| { assert s[i..i + |e|][1] != e[1]; }
        }
      }
    }
  }

  /**
   * Both passes replace every occurrence. `segs` are the stub's pieces between
   * its `{{ class }}` placeholders; `parts` are the pieces between the
   * `{{ entity }}` placeholders of what the class pass produced.
   */
  lemma RenderJoin(segs: seq<string>, parts: seq<string>, name: string)
    requires forall i :: 0 <= i < |segs| ==> !Occurs(segs[i], ClassPlaceholder)
    requires forall i :: 0 <= i < |parts| ==> !Occurs(parts[i], EntityPlaceholder)
    requires Join(segs, name) == Join(parts, EntityPlaceholder)
    ensures Render(Join(segs, ClassPlaceholder), name) == Join(parts, Entity(name))
  {
    PlaceholdersBorderFree();
    ReplaceJoin(segs, ClassPlaceholder, name);
    ReplaceJoin(parts, EntityPlaceholder, Entity(name));
  }

  /**
   * Every `{{ class }}` becomes the name, when the result has no
   * `{{ entity }}` for the second pass to find.
   */
  lemma RenderClassPlaceholder(segs: seq<string>, name: string)
    requires forall i :: 0 <= i < |segs| ==> !Occurs(segs[i], ClassPlaceholder)
    requires !Occurs(Join(segs, name), EntityPlaceholder)
    ensures Render(Join(segs, ClassPlaceholder), name) == Join(segs, name)
  {
    PlaceholdersBorderFree();
    ReplaceJoin(segs, ClassPlaceholder, name);
    NoOccurrenceUnchanged(Join(segs, name), EntityPlaceholder, Entity(name));
  }

  /** Joining two such texts keeps it, unless a `{` meets a `{` at the seam. */
  lemma NoDoubleBraceConcat(a: string, b: string)
    requires NoDoubleBrace(a) && NoDoubleBrace(b)
    requires a == [] || b == [] || a[|a| - 1] != '{' || b[0] != '{'
    ensures NoDoubleBrace(a + b)
  {
  }

  /** Pieces without double braces, joined by a name without braces, have none. */
  lemma {:induction false} JoinNoDoubleBrace(segs: seq<string>, name: string)
    requires forall i :: 0 <= i < |segs| ==> NoDoubleBrace(segs[i])
    requires name != [] && '{' !in name
    ensures NoDoubleBrace(Join(segs, name))
    decreases |segs|
  {
    if |segs| > 1 {
      JoinNoDoubleBrace(segs[1..], name);
      assert NoDoubleBrace(name);
      NoDoubleBraceConcat(segs[0], name);
      assert (segs[0] + name)[|segs[0] + name| - 1] == name[|name| - 1];
      NoDoubleBraceConcat(segs[0] + name, Join(segs[1..], name));
    }
  }

  /**
   * A stub of PHP text with `{{ class }}` placeholders and a class name
   * without braces: every placeholder becomes the name.
   */
  lemma RenderClassStub(segs: seq<string>, name: string)
    requires forall i :: 0 <= i < |segs| ==> NoDoubleBrace(segs[i])
    requires name != [] && '{' !in name
    ensures Render(Join(segs, ClassPlaceholder), name) == Join(segs, name)
  {
    forall i | 0 <= i < |segs|
      ensures !Occurs(segs[i], ClassPlaceholder)
    {
      DoubleBraceFree(segs[i]);
    }
    JoinNoDoubleBrace(segs, name);
    DoubleBraceFree(Join(segs, name));
    RenderClassPlaceholder(segs, name);
  }

  /** Every `{{ entity }}` becomes the entity, when the stub has no `{{ class }}`. */
  lemma RenderEntityPlaceholder(segs: seq<string>, name: string)
    requires forall i :: 0 <= i < |segs| ==> !Occurs(segs[i], EntityPlaceholder)
    requires !Occurs(Join(segs, EntityPlaceholder), ClassPlaceholder)
    ensures Render(Join(segs, EntityPlaceholder), name) == Join(segs, Entity(name))
  {
    PlaceholdersBorderFree();
    NoOccurrenceUnchanged(Join(segs, EntityPlaceholder), ClassPlaceholder, name);
    ReplaceJoin(segs, EntityPlaceholder, Entity(name));
  }

  /**
   * An `{{ entity }}` cannot be part of a `{{ class }}` and does not form one
   * with the text around it.
   */
  lemma NoClassAroundEntity(x: string, y: string)
    requires !Occurs(x, ClassPlaceholder) && !Occurs(y, ClassPlaceholder)
    ensures !Occurs(x + EntityPlaceholder + y, ClassPlaceholder)
  {
    var s := x + EntityPlaceholder + y;
    forall i: nat | i <= |s|
      ensures !OccursAt(s, ClassPlaceholder, i)
    {
      var c, e := ClassPlaceholder, EntityPlaceholder;
      if i + |c| <= |s| {
        if i + |c| <= |x| {
          SliceLeft(x, e + y, i, |c|);
          assert x + (e + y) == s;
          assert !OccursAt(x, c, i);
        } else if i >= |x| + |e| {
          SliceRight(x + e, y, i, |c|);
          assert !OccursAt(y, c, i - |x| - |e|);
        } else {
          NoClassNearEntity(x, y, i);
        }
      }
    }
  }

  lemma SliceLeft(x: string, t: string, i: nat, n: nat)
    requires i + n <= |x|
    ensures (x + t)[i..i + n] == x[i..i + n]
  {
  }

  lemma SliceRight(x: string, t: string, i: nat, n: nat)
    requires |x| <= i && i + n <= |x| + |t|
    ensures (x + t)[i..i + n] == t[i - |x|..i - |x| + n]
  {
  }

  /** A window of `{{ class }}`'s length that overlaps the `{{ entity }}` differs from it. */
  lemma NoClassNearEntity(x: string, y: string, i: nat)
    requires i + |ClassPlaceholder| <= |x + EntityPlaceholder + y|
    requires |x| < i + |ClassPlaceholder| && i < |x| + |EntityPlaceholder|
    ensures !OccursAt(x + EntityPlaceholder + y, ClassPlaceholder, i)
  {
    var c, e := ClassPlaceholder, EntityPlaceholder;
    var s := x + e + y;
    var w := s[i..i + |c|];
    assert forall j :: 2 <= j < |c| ==> c[j] != '{';
    assert forall j :: 2 <= j < |e| ==> e[j] != '{';
    assert forall j :: 0 <= j < |e| ==> s[|x| + j] == e[j];
    if i < |x| {
      var k := |x| - i;
      if k == 1 {
        assert w[2] == e[1];
      } else {
        assert w[k] == e[0];
      }
    } else if i == |x| {
      assert w[3] == e[3];
    } else if i == |x| + 1 {
      assert w[1] == e[2];
    } else {
      assert w[0] == e[i - |x|];
    }
  }

  /** Joining `{{ class }}`-free pieces by `{{ entity }}` brings in no `{{ class }}`. */
  lemma {:induction false} EntityJoinHasNoClass(segs: seq<string>)
    requires forall i :: 0 <= i < |segs| ==> !Occurs(segs[i], ClassPlaceholder)
    ensures !Occurs(Join(segs, EntityPlaceholder), ClassPlaceholder)
    decreases |segs|
  {
    if |segs| > 1 {
      EntityJoinHasNoClass(segs[1..]);
      NoClassAroundEntity(segs[0], Join(segs[1..], EntityPlaceholder));
    }
  }

  /**
   * A stub of PHP text with `{{ entity }}` placeholders: every placeholder
   * becomes the entity.
   */
  lemma RenderEntityStub(segs: seq<string>, name: string)
    requires forall i :: 0 <= i < |segs| ==> NoDoubleBrace(segs[i])
    ensures Render(Join(segs, EntityPlaceholder), name) == Join(segs, Entity(name))
  {
    forall i | 0 <= i < |segs|
      ensures !Occurs(segs[i], ClassPlaceholder) && !Occurs(segs[i], EntityPlaceholder)
    {
      DoubleBraceFree(segs[i]);
    }
    EntityJoinHasNoClass(segs);
    RenderEntityPlaceholder(segs, name);
  }

  /** The class pass does not touch an `{{ entity }}`, whatever follows it. */
  lemma ClassPassSkipsEntityPlaceholder(y: string, name: string)
    requires !Occurs(y, ClassPlaceholder)
    ensures StrReplace(EntityPlaceholder + y, ClassPlaceholder, name) == EntityPlaceholder + y
  {
    var x: string := [];
    assert !Occurs(x, ClassPlaceholder);
    NoClassAroundEntity(x, y);
    assert x + EntityPlaceholder + y == EntityPlaceholder + y;
    NoOccurrenceUnchanged(EntityPlaceholder + y, ClassPlaceholder, name);
  }
}
