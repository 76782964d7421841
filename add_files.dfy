/**
 * `AddAndroidFiles`: whether the "add file" command is offered for a
 * directory of the file browser, which kind of file it adds, and the name,
 * path and initial content of the new Java class or XML resource.
 */
module AddFiles {
  import opened JavaStrings

  /** `TextUtils.isEmpty(dirPath)` for a non-null path. */
  predicate IsEmpty(p: string) {
    |p| == 0
  }

  /** `isJavaSourceDir(dirPath)` */
  predicate IsJavaSourceDir(p: string) {
    !IsEmpty(p) && (Contains(p, "java") || Contains(p, "aidl"))
  }

  /** `isXmlSourceDir(dirPath)` */
  predicate IsXmlSourceDir(p: string) {
    !IsEmpty(p) && LastIndexOf(p, "res/") > 0
  }

  /** `Zo(dirPath)` */
  predicate Zo(p: string) {
    IsJavaSourceDir(p)
  }

  /**
   * `v5(dirPath)`. Its second disjunct asks the file system whether some
   * parent directory is named `res` and the project service whether the
   * path lies under the current app home: `resUnderAppHome` is that answer.
   */
  predicate V5(p: string, resUnderAppHome: bool) {
    IsXmlSourceDir(p) || resUnderAppHome
  }

  /** The command title: 0, `R.string.command_files_add_new_class` or `R.string.command_files_add_new_xml`. */
  datatype AddType = NoAdd | NewClass | NewXml

  /** `getAddTypeName(dirPath)` */
  function GetAddTypeName(p: string, resUnderAppHome: bool): AddType {
    if Zo(p) then NewClass else if V5(p, resUnderAppHome) then NewXml else NoAdd
  }

  /** `getAddTypeName2(dirPath)`: the class test is a plain `contains("/java")`. */
  function GetAddTypeName2(p: string, resUnderAppHome: bool): AddType {
    if Contains(p, "/java") then NewClass else if V5(p, resUnderAppHome) then NewXml else NoAdd
  }

  /** `isVisible(dirPath)` */
  predicate IsVisible(p: string, resUnderAppHome: bool) {
    Zo(p) || V5(p, resUnderAppHome)
  }

  // ---------------------------------------------------------------------------
  // The path predicates
  // ---------------------------------------------------------------------------

  /** The emptiness test in `isJavaSourceDir` is redundant: only `java` or `aidl` in the path decides. */
  lemma JavaSourceDirByContents(p: string)
    ensures IsJavaSourceDir(p) <==> Contains(p, "java") || Contains(p, "aidl")
  {
    if Contains(p, "java") {
      var i :| 0 <= i <= |p| && OccursAt(p, "java", i);
    }
    if Contains(p, "aidl") {
      var i :| 0 <= i <= |p| && OccursAt(p, "aidl", i);
    }
  }

  /** A path is an XML source directory exactly when `res/` occurs in it somewhere other than at its very start. */
  lemma XmlSourceDirByOccurrence(p: string)
    ensures IsXmlSourceDir(p) <==> exists i :: 0 < i && OccursAt(p, "res/", i)
  {
    if exists i :: 0 < i && OccursAt(p, "res/", i) {
      var i :| 0 < i && OccursAt(p, "res/", i);
      assert LastIndexOf(p, "res/") >= i;
    }
  }

  /** `isVisible` holds exactly when `getAddTypeName` names a command, and the class test is made first. */
  lemma VisibleIffNamed(p: string, resUnderAppHome: bool)
    ensures IsVisible(p, resUnderAppHome) <==> GetAddTypeName(p, resUnderAppHome) != NoAdd
    ensures IsJavaSourceDir(p) ==> GetAddTypeName(p, resUnderAppHome) == NewClass
    ensures !IsJavaSourceDir(p) && V5(p, resUnderAppHome) ==> GetAddTypeName(p, resUnderAppHome) == NewXml
  {
  }

  /** `getAddTypeName2` offers a class only where `getAddTypeName` does too. */
  lemma NewClassNarrowed(p: string, resUnderAppHome: bool)
    ensures GetAddTypeName2(p, resUnderAppHome) == NewClass ==> GetAddTypeName(p, resUnderAppHome) == NewClass
    ensures GetAddTypeName(p, resUnderAppHome) == NoAdd ==> GetAddTypeName2(p, resUnderAppHome) == NoAdd
  {
    if Contains(p, "/java") {
      var i :| 0 <= i <= |p| && OccursAt(p, "/java", i);
      assert p[i + 1..i + 5] == p[i..i + 5][1..];
      assert OccursAt(p, "java", i + 1);
    }
  }

  /** ... and strictly so: an `aidl` directory gets a class from `getAddTypeName` and nothing from `getAddTypeName2`. */
  lemma AidlDirOnlyOldClass()
    ensures GetAddTypeName("src/aidl", false) == NewClass
    ensures GetAddTypeName2("src/aidl", false) == NoAdd
  {
    var p := "src/aidl";
    assert OccursAt(p, "aidl", 4);
    forall i | 0 <= i <= |p|
      ensures !OccursAt(p, "/java", i)
    {
      if i + 5 <= |p| {
        assert p[i..i + 5][0] == p[i] && p[i..i + 5][1] == p[i + 1];
      }
    }
    forall i | 0 <= i <= |p|
      ensures !OccursAt(p, "res/", i)
    {
      if i + 4 <= |p| {
        assert p[i..i + 4][0] == p[i] && p[i..i + 4][3] == p[i + 3];
      }
    }
  }

  // ---------------------------------------------------------------------------
  // The new file
  // ---------------------------------------------------------------------------

  /** `name` with one trailing `suffix` removed. */
  function StripSuffix(name: string, suffix: string): (r: string)
    ensures EndsWith(name, suffix) ==> r + suffix == name
    ensures !EndsWith(name, suffix) ==> r == name
  {
    if EndsWith(name, suffix) then name[..|name| - |suffix|] else name
  }

  /** The path and content `writeStringToFile` receives. */
  datatype NewFile = NewFile(path: string, content: string)

  /**
   * The class callback of `DW`: the entered name without one `.java`, the
   * file `dirPath/<name>.java`, and a class declaration preceded by a
   * package clause when the directory maps to a package (`pkg`, what
   * `AndroidProjectSupport.Ev` answers for the directory).
   */
  function NewClassFile(dir: string, name: string, pkg: string): NewFile {
    var cls := StripSuffix(name, ".java");
    var header := if |pkg| > 0 then "package " + pkg + ";\n\n" else "";
    NewFile(dir + "/" + cls + ".java", header + "public class " + cls + "\n{\n}")
  }

  /** Typing the `.java` suffix or leaving it off gives the same file. */
  lemma ClassSuffixOptional(dir: string, n: string, pkg: string)
    requires !EndsWith(n, ".java")
    ensures NewClassFile(dir, n + ".java", pkg) == NewClassFile(dir, n, pkg)
  {
    assert EndsWith(n + ".java", ".java");
    assert (n + ".java")[..|n|] == n;
  }

  /**
   * The class file lies in the directory, is named after the class, and
   * declares it; the package clause is present exactly when there is a
   * package.
   */
  lemma NewClassFileShape(dir: string, name: string, pkg: string)
    ensures var f := NewClassFile(dir, name, pkg);
            var cls := StripSuffix(name, ".java");
            && f.path == dir + "/" + cls + ".java"
            && EndsWith(f.content, "public class " + cls + "\n{\n}")
            && (StartsWith(f.content, "package " + pkg + ";\n\n") <==> |pkg| > 0)
            && (|pkg| == 0 ==> f.content == "public class " + cls + "\n{\n}")
  {
    var f := NewClassFile(dir, name, pkg);
    var cls := StripSuffix(name, ".java");
    var body := "public class " + cls + "\n{\n}";
    if |pkg| > 0 {
      var header := "package " + pkg + ";\n\n";
      assert f.content == header + body;
      assert f.content[..|header|] == header;
      assert f.content[|f.content| - |body|..] == body;
    } else {
      assert f.content == body;
      assert f.content[0] == 'p' && f.content[1] == 'u';
    }
  }

  const LinearLayoutTemplate: string :=
    "<LinearLayout xmlns:android=\"http://schemas.android.com/apk/res/android\"\n"
    + "    android:layout_width=\"fill_parent\"\n"
    + "    android:layout_height=\"fill_parent\"\n"
    + "    android:orientation=\"vertical\">\n"
    + "    \n"
    + "</LinearLayout>\n"

  const MenuTemplate: string :=
    "<menu xmlns:android=\"http://schemas.android.com/apk/res/android\">\n"
    + "    \n"
    + "    <item\n"
    + "        android:id=\"@+id/item\"\n"
    + "        android:title=\"Item\"/>\n"
    + "    \n"
    + "</menu>\n"

  const XmlDeclaration: string := "<?xml version=\"1.0\" encoding=\"utf-8\"?>\n"

  /** The template for a new XML file in a directory named `parentName`: `layout…` first, then `menu…`. */
  function XmlTemplate(parentName: string): string {
    if StartsWith(parentName, "layout") then LinearLayoutTemplate
    else if StartsWith(parentName, "menu") then MenuTemplate
    else XmlDeclaration
  }

  /** `FileSystem.getParent(path)`: everything before the last '/'. */
  function Parent(path: string): string
    requires '/' in path
  {
    path[..LastIndexOfChar(path, '/')]
  }

  /** The XML callback of `DW`: the entered name without one `.xml`, and the template of its parent directory. */
  function NewXmlFile(dir: string, name: string): NewFile {
    var path := dir + "/" + StripSuffix(name, ".xml") + ".xml";
    assert path[|dir|] == '/';
    NewFile(path, XmlTemplate(LastSegment(Parent(path))))
  }

  /** The parent of `dir/<n>` is `dir` when `n` holds no '/'. */
  lemma ParentOfChild(dir: string, n: string)
    requires '/' !in n
    ensures var path := dir + "/" + n; '/' in path && Parent(path) == dir
  {
    var path := dir + "/" + n;
    assert path[|dir|] == '/';
    var r := LastIndexOfChar(path, '/');
    assert r >= |dir|;
    assert forall j :: |dir| < j < |path| ==> path[j] == n[j - |dir| - 1];
    assert path[..|dir|] == dir;
  }

  /**
   * For a name without '/', the template is chosen by the name of the
   * directory the file is created in: a `layout…` directory gets a
   * LinearLayout, a `menu…` directory a menu, any other directory only the
   * XML declaration.
   */
  lemma XmlTemplateOfDirectory(dir: string, name: string)
    requires '/' !in name
    ensures var f := NewXmlFile(dir, name);
            && f.path == dir + "/" + StripSuffix(name, ".xml") + ".xml"
            && f.content == XmlTemplate(LastSegment(dir))
  {
    var n := StripSuffix(name, ".xml") + ".xml";
    if EndsWith(name, ".xml") {
      assert StripSuffix(name, ".xml") == name[..|name| - 4];
      assert forall i :: 0 <= i < |name| - 4 ==> StripSuffix(name, ".xml")[i] == name[i];
    }
    assert '/' !in n;
    assert dir + "/" + StripSuffix(name, ".xml") + ".xml" == dir + "/" + n;
    ParentOfChild(dir, n);
  }

  /** Typing the `.xml` suffix or leaving it off gives the same file. */
  lemma XmlSuffixOptional(dir: string, n: string)
    requires !EndsWith(n, ".xml")
    ensures NewXmlFile(dir, n + ".xml") == NewXmlFile(dir, n)
  {
    assert EndsWith(n + ".xml", ".xml");
    assert (n + ".xml")[..|n|] == n;
  }
}
