/** The page-generating variant of the parser registry
    (pages/parser_utils.py): the same add and delete as the dashboard, and
    on a successful add a Streamlit page file named after the parser. */
module ParserPages {
  import opened Text
  import opened Registry
  import opened Wrappers

  /** `PAGES_DIRECTORY`. */
  const PagesDirectory := "pages"

  /** The suffix every generated page file carries. */
  const PageSuffix := "_parser.py"

  /** `f"{parser_name.lower().replace(' ', '-')}_parser.py"`: the file name
      has no spaces and no upper-case letters, ends in `_parser.py`, and
      keeps one character per character of the name in front of it. */
  function PageFileName(name: string): (file: string)
    ensures |file| == |name| + |PageSuffix| && file[|name|..] == PageSuffix
    ensures forall i :: 0 <= i < |file| ==> file[i] != ' ' && !IsUpper(file[i])
    ensures forall i :: 0 <= i < |name| ==> file[i] == if name[i] == ' ' then '-' else LowerChar(name[i])
  {
    var stem := Replace(Lower(name), ' ', '-');
    assert forall i :: 0 <= i < |stem| ==> stem[i] != ' ' && !IsUpper(stem[i]) by {
      forall i | 0 <= i < |stem| ensures stem[i] != ' ' && !IsUpper(stem[i]) {
        LowerCharNotUpper(name[i]);
      }
    }
    stem + PageSuffix
  }

  lemma LowerCharNotUpper(c: char)
    ensures !IsUpper(LowerChar(c)) && (c != ' ' ==> LowerChar(c) != ' ')
  {
  }

  /** `os.path.join(PAGES_DIRECTORY, file_name)`. */
  function PagePath(name: string): string
  {
    JoinPath(PagesDirectory, PageFileName(name))
  }

  /** The page path is `pages/` followed by the file name, unless the name
      starts with `/`: then `os.path.join` drops the directory and the path
      is the file name alone, an absolute path. This is about the path
      string only; where the file system puts it is not modelled. */
  lemma PagePathCases(name: string)
    ensures name != [] && name[0] == '/' ==> PagePath(name) == PageFileName(name) && PagePath(name)[0] == '/'
    ensures name == [] || name[0] != '/' ==> PagePath(name) == PagesDirectory + "/" + PageFileName(name)
  {
    var file := PageFileName(name);
    if name != [] {
      assert file[0] == if name[0] == ' ' then '-' else LowerChar(name[0]);
    } else {
      assert file == PageSuffix;
    }
  }

  /** The trimmed name "/x" is accepted by the form, and its page path is
      the absolute path "/x_parser.py". */
  lemma AbsoluteNameExample()
    ensures PagePath("/x") == "/x_parser.py"
  {
    PagePathCases("/x");
    var f := PageFileName("/x");
    assert f[..2] == "/x";
    assert f == f[..2] + f[2..];
  }

  /** Names that differ only in case, or in a space where the other has a
      hyphen, get the same page file: the later page overwrites the
      earlier. */
  lemma PageFileNameCollides(a: string, b: string)
    requires |a| == |b|
    requires forall i :: 0 <= i < |a| ==>
               (if a[i] == ' ' then '-' else LowerChar(a[i])) == (if b[i] == ' ' then '-' else LowerChar(b[i]))
    ensures PageFileName(a) == PageFileName(b)
  {
    var fa, fb := PageFileName(a), PageFileName(b);
    assert fa[|a|..] == fb[|b|..];
    assert fa == fa[..|a|] + fa[|a|..] && fb == fb[..|b|] + fb[|b|..];
    assert fa[..|a|] == fb[..|b|];
  }

  /** Two registrable names, one file. */
  lemma PageFileNameCollisionExample()
    ensures "A b" != "a-b"
    ensures PageFileName("A b") == PageFileName("a-b") == "a-b_parser.py"
  {
    PageFileNameCollides("A b", "a-b");
    var f := PageFileName("a-b");
    assert f[..3] == "a-b";
    assert f == f[..3] + f[3..];
  }

  /** `add_new_parser` of the page-generating variant: the registry changes
      as in the dashboard, and a page file is written exactly when the
      parser was added, named after the trimmed name. */
  method AddNewParserWithPage(store: ParserStore, f: Form) returns (outcome: AddOutcome, page: Option<string>)
    requires store.Valid()
    modifies store
    ensures store.Valid()
    ensures (outcome, store.State()) == Add(old(store.State()), f)
    ensures page.Some? <==> outcome == Added
    ensures outcome == Added ==> page == Some(PagePath(Strip(f.name)))
  {
    outcome := store.AddNewParser(f);
    if outcome == Added {
      page := Some(PagePath(Strip(f.name)));
    } else {
      page := None;
    }
  }
}
