/**
  What route() and loadClass() guarantee: normalisation of the request URI,
  the defaults, the filtering of segments, capitalisation and positional
  assignment, how the code as written relates to the intended resolution,
  and the class-name-to-file rule.
 */
module CoreProperties {
  import opened Options
  import opened PhpString
  import opened PhpArray
  import opened Core

  // ---------------------------------------------------------------------------
  // Normalisation of the request URI

  /** Everything from the first '?' on is ignored: u and u?q have the same path. */
  lemma QueryStringIgnored(u: string, q: string)
    ensures RoutePath(u + "?" + q) == RoutePath(u)
  {
    var v := u + "?" + q;
    match StrPos(u, '?')
    case None =>
      assert v == u + ['?'] + q;
      StrPosAfter(u, q, '?');
      assert v[..|u|] == u;
    case Some(p) =>
      assert v == u + ("?" + q);
      StrPosAppend(u, "?" + q, '?');
      assert v[..p] == u[..p];
  }

  /** A leading '/' is trimmed away. */
  lemma LeadingSlashIgnored(u: string)
    ensures RoutePath("/" + u) == RoutePath(u)
  {
    var v := "/" + u;
    assert BeforeQuery(v) == "/" + BeforeQuery(u) by {
      StrPosPrepend('/', u, '?');
      match StrPos(u, '?')
      case None =>
      case Some(p) =>
        assert v[..p + 1] == "/" + u[..p];
    }
    TrimLeading(BeforeQuery(u), '/');
  }

  /** A trailing '/' is trimmed away (or falls inside the ignored query). */
  lemma TrailingSlashIgnored(u: string)
    ensures RoutePath(u + "/") == RoutePath(u)
  {
    var v := u + "/";
    match StrPos(u, '?')
    case None =>
      assert '?' !in v;
      TrimTrailing(u, '/');
    case Some(p) =>
      StrPosAppend(u, "/", '?');
      assert v[..p] == u[..p];
  }

  /** The path route() works on is its own normal form. */
  lemma RoutePathIdempotent(u: string)
    ensures RoutePath(RoutePath(u)) == RoutePath(u)
  {
    var p := RoutePath(u);
    assert BeforeQuery(p) == p;
    TrimFixed(p, '/');
  }

  // ---------------------------------------------------------------------------
  // Defaults

  /** A URI whose path part is only slashes ("", "/", "/?x=1", ...) keeps both defaults. */
  lemma OnlySlashesGiveDefaults(config: Config, u: string)
    requires forall k | 0 <= k < |BeforeQuery(u)| :: BeforeQuery(u)[k] == '/'
    ensures ResolveAsWritten(config, u) == Resolved(config.defaultController, config.defaultAction, [])
    ensures ResolveIntended(config, u) == ResolveAsWritten(config, u)
  {
    TrimOnlySeparator(BeforeQuery(u), '/');
    assert Segments("") == [];
  }

  /**
    When the normalised path has no segment, the action is the default one and
    there are no parameters; the controller keeps its default only for the
    paths "" and "0", and is "" for any other (such as "0/0").
   */
  lemma NoSegments(config: Config, path: string)
    requires Segments(path) == []
    ensures ResolvePath(config, path).actionName == config.defaultAction
    ensures ResolvePath(config, path).params == []
    ensures ResolvePath(config, path).controllerName == if Truthy(path) then "" else config.defaultController
  {
    var pieces := Explode(path, '/');
    assert !Truthy(pieces[0]);
  }

  // ---------------------------------------------------------------------------
  // Segment filtering

  /** The two falsy paths have no segments. */
  lemma FalsyPathHasNoSegments(path: string)
    requires !Truthy(path)
    ensures Segments(path) == []
  {
    if path == "0" {
      ExplodeNoSeparator("0", '/');
    }
  }

  /** ResolvePath reads a path only through its truthiness, its first piece and its segments. */
  lemma ResolvePathCongruence(config: Config, p: string, q: string)
    requires Truthy(p) == Truthy(q)
    requires Explode(p, '/')[0] == Explode(q, '/')[0]
    requires Segments(p) == Segments(q)
    ensures ResolvePath(config, p) == ResolvePath(config, q)
  {
  }

  /** Inserting a piece between a and b adds exactly that piece to the exploded list. */
  lemma ExplodeInsert(a: string, piece: string, b: string)
    requires '/' !in piece
    ensures Explode(a + "/" + piece + "/" + b, '/') == Explode(a, '/') + [piece] + Explode(b, '/')
    ensures Explode(a + "/" + b, '/') == Explode(a, '/') + Explode(b, '/')
  {
    assert a + "/" + piece + "/" + b == a + ['/'] + (piece + ['/'] + b);
    assert a + "/" + b == a + ['/'] + b;
    ExplodeConcat(a, piece + ['/'] + b, '/');
    ExplodeConcat(piece, b, '/');
    ExplodeConcat(a, b, '/');
    ExplodeNoSeparator(piece, '/');
  }

  /** A falsy piece inserted into a path is dropped: it changes neither the segments nor the route. */
  lemma {:induction false} FalsyPieceIgnored(config: Config, a: string, piece: string, b: string)
    requires !Truthy(piece)
    ensures Segments(a + "/" + piece + "/" + b) == Segments(a + "/" + b)
    ensures ResolvePath(config, a + "/" + piece + "/" + b) == ResolvePath(config, a + "/" + b)
  {
    var p, q := a + "/" + piece + "/" + b, a + "/" + b;
    var ea, eb := Explode(a, '/'), Explode(b, '/');
    assert Segments(p) == Segments(q) by {
      ExplodeInsert(a, piece, b);
      KeptConcat(ea + [piece], eb);
      KeptConcat(ea, [piece]);
      KeptConcat(ea, eb);
      assert Kept([piece]) == [];
    }
    assert Explode(p, '/')[0] == Explode(q, '/')[0] by {
      ExplodeInsert(a, piece, b);
    }
    assert Truthy(p) && Truthy(q) by {
      assert |p| >= 2 && |q| >= 1 && q[|a|] == '/';
    }
    ResolvePathCongruence(config, p, q);
  }

  /** A path that is already normal is what route() works on, whatever slashes surround it. */
  lemma NormalPath(p: string)
    requires p != "" && '?' !in p && p[0] != '/' && p[|p| - 1] != '/'
    ensures RoutePath("/" + p) == p
    ensures RoutePath("/" + p + "/") == p
  {
    assert "/" + p + "/" == "/" + (p + "/");
    LeadingSlashIgnored(p + "/");
    TrailingSlashIgnored(p);
    LeadingSlashIgnored(p);
    TrimFixed(p, '/');
  }

  /** The shapes of "/x//y/" and "/x/y" that RepeatedSlashes rewrites between: both surround a normal path. */
  lemma RepeatedSlashesShapes(x: string, y: string)
    requires x != "" && y != ""
    requires '/' !in x && '/' !in y && '?' !in x && '?' !in y
    ensures var p := x + "//" + y;
            && "/" + x + "//" + y + "/" == "/" + p + "/"
            && p == x + "/" + "" + "/" + y
            && p != "" && '?' !in p && p[0] != '/' && p[|p| - 1] != '/'
    ensures var q := x + "/" + y;
            && "/" + x + "/" + y == "/" + q
            && q != "" && '?' !in q && q[0] != '/' && q[|q| - 1] != '/'
  {
  }

  /** "/x//y/" resolves exactly like "/x/y" (so "/user//profile/" like "/user/profile"). */
  lemma RepeatedSlashes(config: Config, x: string, y: string)
    requires x != "" && y != ""
    requires '/' !in x && '/' !in y && '?' !in x && '?' !in y
    ensures ResolveAsWritten(config, "/" + x + "//" + y + "/") == ResolveAsWritten(config, "/" + x + "/" + y)
  {
    RepeatedSlashesShapes(x, y);
    RepeatedSlashesPaths(x, y);
    FalsyPieceIgnored(config, x, "", y);
    SamePathSameRoute(config, "/" + x + "//" + y + "/", x + "/" + "" + "/" + y,
                      "/" + x + "/" + y, x + "/" + y);
  }

  /** Two URIs with the given normalised paths, which ResolvePath maps alike, route alike. */
  lemma SamePathSameRoute(config: Config, u: string, p: string, v: string, q: string)
    requires RoutePath(u) == p && RoutePath(v) == q
    requires ResolvePath(config, p) == ResolvePath(config, q)
    ensures ResolveAsWritten(config, u) == ResolveAsWritten(config, v)
  {
  }

  /** "/x//y/" normalises to x//y and "/x/y" to x/y. */
  lemma RepeatedSlashesPaths(x: string, y: string)
    requires x != "" && y != ""
    requires '/' !in x && '/' !in y && '?' !in x && '?' !in y
    ensures RoutePath("/" + x + "//" + y + "/") == x + "//" + y
    ensures RoutePath("/" + x + "/" + y) == x + "/" + y
  {
    RepeatedSlashesShapes(x, y);
    NormalPath(x + "//" + y);
    NormalPath(x + "/" + y);
  }

  // ---------------------------------------------------------------------------
  // Positional assignment and capitalisation

  /**
    For every path: with two or more segments the action is the second one and
    the parameters are the rest in order, otherwise the action is the default
    and there are no parameters; so there are max(0, |segments| - 2)
    parameters. The action and the parameters are segments unchanged.
   */
  lemma PositionalAssignment(config: Config, path: string)
    ensures var r, s := ResolvePath(config, path), Segments(path);
            |r.params| == if |s| >= 2 then |s| - 2 else 0
    ensures var r, s := ResolvePath(config, path), Segments(path);
            |s| >= 2 ==> r.actionName == s[1] && r.params == s[2..]
    ensures var r, s := ResolvePath(config, path), Segments(path);
            |s| <= 1 ==> r.actionName == config.defaultAction && r.params == []
  {
    if !Truthy(path) {
      FalsyPathHasNoSegments(path);
    }
  }

  /**
    When the first '/'-piece of a truthy path is kept, the controller name is
    the first segment with only its first character upper-cased.
   */
  lemma ControllerFromFirstSegment(config: Config, path: string)
    requires Truthy(path) && Truthy(Explode(path, '/')[0])
    ensures |Segments(path)| >= 1
    ensures ResolvePath(config, path).controllerName == UcFirst(Segments(path)[0])
  {
    var pieces := Explode(path, '/');
    assert pieces == [pieces[0]] + pieces[1..];
    KeptConcat([pieces[0]], pieces[1..]);
  }

  /** ucfirst capitalises only the first letter: "classAndStu" names the controller "ClassAndStu". */
  lemma CapitalisationExample()
    ensures UcFirst("classAndStu") == "ClassAndStu"
    ensures UcFirst("ClassAndStu") == "ClassAndStu"
  {
    assert UcFirst("classAndStu")[0] == 'C';
  }

  // ---------------------------------------------------------------------------
  // The code as written against the intended resolution

  /** The path's first '/'-piece is "0" and more follows ("0/user/profile", "0/0"). */
  predicate LeadingZeroSegment(path: string) {
    |path| >= 2 && path[0] == '0' && path[1] == '/'
  }

  /**
    route() as written resolves every URI exactly as intended unless its path
    starts with a "0" piece; then the controller name is "" and the two
    differ, except for a path without any segment and an empty default
    controller.
   */
  lemma AsWrittenAgainstIntended(config: Config, u: string)
    ensures var path := RoutePath(u);
            !LeadingZeroSegment(path) ==> ResolveAsWritten(config, u) == ResolveIntended(config, u)
    ensures var path := RoutePath(u);
            LeadingZeroSegment(path) ==> ResolveAsWritten(config, u).controllerName == ""
    ensures var path := RoutePath(u);
            LeadingZeroSegment(path) && (Segments(path) != [] || config.defaultController != "") ==>
              ResolveAsWritten(config, u) != ResolveIntended(config, u)
  {
    var path := RoutePath(u);
    var segs := Segments(path);
    if !Truthy(path) {
      FalsyPathHasNoSegments(path);
    } else {
      FirstPiece(path, '/');
      PositionalAssignment(config, path);
      if Truthy(Explode(path, '/')[0]) {
        ControllerFromFirstSegment(config, path);
      } else {
        assert LeadingZeroSegment(path);
        if segs != [] {
          assert UcFirst(segs[0]) != "";
        }
      }
    }
  }

  /** "/0/x/y" surrounds the normal, truthy path "0/x/y", which is "0", a separator and x/y. */
  lemma LeadingZeroShapes(x: string, y: string)
    requires x != "" && y != ""
    requires '/' !in x && '/' !in y && '?' !in x && '?' !in y
    ensures var path := "0/" + x + "/" + y;
            && "/0/" + x + "/" + y == "/" + path
            && path == "0" + ['/'] + (x + ['/'] + y)
            && '?' !in path && path[0] != '/' && path[|path| - 1] != '/'
            && Truthy(path)
  {
  }

  /** Of the pieces "0", x, y only x and y are kept. */
  lemma KeptAfterZero(x: string, y: string)
    requires Truthy(x) && Truthy(y)
    ensures Kept(["0", x, y]) == [x, y]
  {
    assert ["0", x, y] == ["0"] + [x, y];
    KeptConcat(["0"], [x, y]);
    assert Kept(["0"]) == [];
    assert forall i | 0 <= i < 2 :: Truthy([x, y][i]);
  }

  /** The normalised path of "/0/x/y" is "0/x/y", a truthy path. */
  lemma LeadingZeroPath(x: string, y: string)
    requires Truthy(x) && Truthy(y)
    requires '/' !in x && '/' !in y && '?' !in x && '?' !in y
    ensures var path := "0/" + x + "/" + y;
            && RoutePath("/0/" + x + "/" + y) == path && Truthy(path)
            && path == "0" + ['/'] + (x + ['/'] + y)
  {
    LeadingZeroShapes(x, y);
    NormalPath("0/" + x + "/" + y);
  }

  /**
    "/0/x/y" resolves, as written, to controller "" and action y: the segment
    x is lost. The intended route has controller ucfirst(x) and action y.
   */
  lemma LeadingZeroDropsSegment(config: Config, x: string, y: string)
    requires Truthy(x) && Truthy(y)
    requires '/' !in x && '/' !in y && '?' !in x && '?' !in y
    ensures ResolveAsWritten(config, "/0/" + x + "/" + y) == Resolved("", y, [])
    ensures ResolveIntended(config, "/0/" + x + "/" + y) == Resolved(UcFirst(x), y, [])
  {
    LeadingZeroPath(x, y);
    LeadingZeroExplode(x, y);
    ZeroFirstPiece(config, "0/" + x + "/" + y, x, y);
  }

  /** The pieces of "0/x/y" are "0", x and y. */
  lemma LeadingZeroExplode(x: string, y: string)
    requires '/' !in x && '/' !in y
    ensures Explode("0/" + x + "/" + y, '/') == ["0", x, y]
  {
    assert "0/" + x + "/" + y == "0" + ['/'] + (x + ['/'] + y);
    assert '/' !in "0";
    ExplodeThree("0", x, y, '/');
  }

  /** A truthy path whose pieces are "0", x, y has segments x, y and resolves to controller "" and action y. */
  lemma ZeroFirstPiece(config: Config, path: string, x: string, y: string)
    requires Truthy(path) && Truthy(x) && Truthy(y)
    requires Explode(path, '/') == ["0", x, y]
    ensures Segments(path) == [x, y]
    ensures ResolvePath(config, path) == Resolved("", y, [])
  {
    KeptAfterZero(x, y);
    PositionalAssignment(config, path);
    assert [x, y][2..] == [];
  }

  /** "/0/user/profile" loses its "user" segment: controller "" instead of "User". */
  lemma LeadingZeroExample(config: Config)
    ensures ResolveAsWritten(config, "/0/user/profile") == Resolved("", "profile", [])
    ensures ResolveIntended(config, "/0/user/profile") == Resolved("User", "profile", [])
  {
    var u, x, y := "/0/user/profile", "user", "profile";
    assert u == "/0/" + x + "/" + y;
    assert UcFirst(x) == "User";
    LeadingZeroDropsSegment(config, x, y);
  }

  /** "/user//profile/" resolves exactly like "/user/profile". */
  lemma RepeatedSlashExample(config: Config)
    ensures ResolveAsWritten(config, "/user//profile/") == ResolveAsWritten(config, "/user/profile")
  {
    assert "/user//profile/" == "/" + "user" + "//" + "profile" + "/";
    assert "/user/profile" == "/" + "user" + "/" + "profile";
    RepeatedSlashes(config, "user", "profile");
  }

  // ---------------------------------------------------------------------------
  // Controller classes and class loading

  /** Different controller names name different classes. */
  lemma ControllerClassInjective(a: string, b: string)
    requires ControllerClass(a) == ControllerClass(b)
    ensures a == b
  {
    var n := |ControllerNamespace|;
    assert a == ControllerClass(a)[n..n + |a|];
    assert b == ControllerClass(b)[n..n + |b|];
  }

  /** The namespace holds a namespace separator; the "Controller" suffix holds none. */
  lemma ControllerNameSeparators()
    ensures NamespaceSeparator in ControllerNamespace && NamespaceSeparator !in "Controller"
  {
    assert ControllerNamespace[3] == NamespaceSeparator;
  }

  /** The controller namespace written as a path. */
  lemma NamespacePath()
    ensures ReplaceChar(ControllerNamespace, NamespaceSeparator, PathSeparator) == "app/controllers/"
  {
    assert "app" + [PathSeparator] + "controllers" + [PathSeparator] == "app/controllers/";
    assert ControllerNamespace == "app" + [NamespaceSeparator] + "controllers" + [NamespaceSeparator];
    assert NamespaceSeparator !in "app" && NamespaceSeparator !in "controllers";
    ReplaceSeparators("app", "controllers", NamespaceSeparator, PathSeparator);
  }

  /**
    Every controller class reaches loadClass() as a namespaced name, so the
    autoloader looks for appPath + "app/controllers/" + name + "Controller.php"
    (with any '\' of the name made '/').
   */
  lemma ControllerClassFile(appPath: string, name: string, isFile: string -> bool)
    ensures var file := appPath + "app/controllers/" + ReplaceChar(name, '\\', '/') + "Controller" + ".php";
            LoadClass(appPath, ControllerClass(name), isFile) == if isFile(file) then Some(file) else None
  {
    ControllerNameSeparators();
    NamespacePath();
    NamespacedClassFile(appPath, ControllerNamespace, name, "Controller", isFile);
  }

  /** loadClass() of p + s + q, where p holds a namespace separator and q none, checks the file built piece by piece. */
  lemma NamespacedClassFile(appPath: string, p: string, s: string, q: string, isFile: string -> bool)
    requires NamespaceSeparator in p && NamespaceSeparator !in q
    ensures var file := appPath + ReplaceChar(p, NamespaceSeparator, PathSeparator) +
                        ReplaceChar(s, NamespaceSeparator, PathSeparator) + q + ".php";
            LoadClass(appPath, p + s + q, isFile) == if isFile(file) then Some(file) else None
  {
    ClassFileOfWrapped(appPath, p, s, q);
  }

  /** The file of a name p + s + q, where q has no namespace separator, built piece by piece. */
  lemma ClassFileOfWrapped(appPath: string, p: string, s: string, q: string)
    requires NamespaceSeparator !in q
    ensures ClassFile(appPath, p + s + q) ==
      appPath + ReplaceChar(p, NamespaceSeparator, PathSeparator) +
      ReplaceChar(s, NamespaceSeparator, PathSeparator) + q + ".php"
  {
    ReplaceCharConcat(p + s, q, NamespaceSeparator, PathSeparator);
    ReplaceCharConcat(p, s, NamespaceSeparator, PathSeparator);
    ReplaceCharAbsent(q, NamespaceSeparator, PathSeparator);
  }

  /**
    Two class names without '/' that load a file load different files: the
    name-to-path rule loses nothing.
   */
  lemma LoadClassInjective(appPath: string, a: string, b: string, isFile: string -> bool)
    requires '/' !in a && '/' !in b
    requires LoadClass(appPath, a, isFile).Some?
    requires LoadClass(appPath, a, isFile) == LoadClass(appPath, b, isFile)
    ensures a == b
  {
    var fa, fb := ClassFile(appPath, a), ClassFile(appPath, b);
    var ra, rb := ReplaceChar(a, '\\', '/'), ReplaceChar(b, '\\', '/');
    assert ra == fa[|appPath|..|appPath| + |a|];
    assert rb == fb[|appPath|..|appPath| + |b|];
    ReplaceCharInverse(a, '\\', '/');
    ReplaceCharInverse(b, '\\', '/');
  }
}
