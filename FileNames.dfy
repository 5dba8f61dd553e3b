/** File-name helpers: the two sanitisers called `limpar_nome_arquivo`, the
    directory listing `listar_arquivos`, and the `_formatado` rule of
    `verificar_e_corrigir_arquivo`. */
module FileNames {
  import opened Strings
  import opened FileSystem

  // ---------------------------------------------------------------------------
  // `limpar_nome_arquivo` of the main converter and `src/files_utils.py`

  /** The class `[<>:"/\\|?*]`. */
  predicate Forbidden(c: char)
  {
    c in "<>:\"/\\|?*"
  }

  /** `re.sub(r'[<>:"/\\|?*]', '', s)`: the characters outside the class, in
      order. */
  function DropForbidden(s: string): (r: string)
    ensures |r| <= |s|
    ensures forall i :: 0 <= i < |r| ==> !Forbidden(r[i]) && r[i] in s
  {
    if s == [] then []
    else
      var rest := DropForbidden(s[1..]);
      assert forall i :: 0 <= i < |rest| ==> rest[i] in s[1..];
      (if Forbidden(s[0]) then [] else [s[0]]) + rest
  }

  /** The forbidden characters removed, then every space turned into '_'. */
  function CleanName(name: string): string
  {
    Replace(DropForbidden(name), " ", "_")
  }

  predicate IsClean(s: string)
  {
    forall i :: 0 <= i < |s| ==> !Forbidden(s[i]) && s[i] != ' '
  }

  /** No forbidden character and no space is left, and every character of
      the result is an underscore or comes from the name. */
  lemma {:induction false} CleanNameIsClean(name: string)
    ensures IsClean(CleanName(name))
    ensures forall i :: 0 <= i < |CleanName(name)| ==> CleanName(name)[i] == '_' || CleanName(name)[i] in name
  {
    ReplaceCharSpec(DropForbidden(name), ' ', '_');
  }

  lemma {:induction false} DropForbiddenFixed(s: string)
    requires forall i :: 0 <= i < |s| ==> !Forbidden(s[i])
    ensures DropForbidden(s) == s
  {
    if s != [] {
      DropForbiddenFixed(s[1..]);
      assert s == [s[0]] + s[1..];
    }
  }

  /** A name is left unchanged exactly when it is already clean. */
  lemma {:induction false} CleanNameFixedIff(name: string)
    ensures CleanName(name) == name <==> IsClean(name)
  {
    CleanNameIsClean(name);
    if IsClean(name) {
      DropForbiddenFixed(name);
      forall i: nat ensures !OccursAt(name, " ", i) {
        if i + 1 <= |name| {
          assert name[i..i + 1][0] == name[i];
        }
      }
      ReplaceAbsent(name, " ", "_");
    }
  }

  /** Cleaning twice is cleaning once. */
  lemma {:induction false} CleanNameIdempotent(name: string)
    ensures CleanName(CleanName(name)) == CleanName(name)
  {
    CleanNameIsClean(name);
    CleanNameFixedIff(CleanName(name));
  }

  // ---------------------------------------------------------------------------
  // `limpar_nome_arquivo` of the lite converter

  /** The characters the lite converter replaces, in the order it replaces
      them. */
  const LiteForbidden: string := "/:*?\"<>|"

  /** Every character among the first `k` of `LiteForbidden` turned into '-'. */
  function DashedUpTo(s: string, k: nat): (r: string)
    requires k <= |LiteForbidden|
    ensures |r| == |s|
  {
    seq(|s|, i requires 0 <= i < |s| => if s[i] in LiteForbidden[..k] then '-' else s[i])
  }

  /** `nome.replace(c, '-')` for each forbidden `c`, then `nome.strip()`. */
  function LiteCleanName(name: string): string
  {
    Strip(DashedUpTo(name, |LiteForbidden|))
  }

  /** The replacement loop of the lite `limpar_nome_arquivo`. */
  method CleanNameLite(name: string) returns (clean: string)
    ensures clean == LiteCleanName(name)
  {
    clean := name;
    var k := 0;
    while k < |LiteForbidden|
      invariant k <= |LiteForbidden| && clean == DashedUpTo(name, k)
    {
      var c := LiteForbidden[k];
      ReplaceCharSpec(clean, c, '-');
      clean := Replace(clean, [c], "-");
      k := k + 1;
      assert LiteForbidden[..k] == LiteForbidden[..k - 1] + [c];
    }
    clean := Strip(clean);
  }

  /** One character after the replacements: '-' when it is forbidden. */
  function Dash(c: char): (r: char)
    ensures r == '-' <==> c == '-' || c in LiteForbidden
    ensures c !in LiteForbidden ==> r == c
  {
    if c in LiteForbidden then '-' else c
  }

  /** Replacing every forbidden character by '-' keeps the length and the
      places of whitespace. */
  lemma DashedShape(name: string)
    ensures var d := DashedUpTo(name, |LiteForbidden|);
      && |d| == |name|
      && (forall i :: 0 <= i < |d| ==> d[i] == Dash(name[i]))
      && (forall i :: 0 <= i < |d| ==> (IsSpace(d[i]) <==> IsSpace(name[i])))
  {
    assert LiteForbidden[..|LiteForbidden|] == LiteForbidden;
  }

  /** No replaced character is left, the ends are not whitespace, and the
      whole name survives when it has no forbidden character and no
      surrounding whitespace. */
  lemma {:induction false} LiteCleanNameSpec(name: string)
    ensures var r := LiteCleanName(name);
      && (forall i :: 0 <= i < |r| ==> r[i] !in LiteForbidden)
      && (r == [] || (!IsSpace(r[0]) && !IsSpace(r[|r| - 1])))
      && |r| <= |name|
      && ((forall i :: 0 <= i < |name| ==> name[i] !in LiteForbidden) && (name == [] || (!IsSpace(name[0]) && !IsSpace(name[|name| - 1])))
          ==> r == name)
  {
    var d := DashedUpTo(name, |LiteForbidden|);
    assert LiteForbidden[..|LiteForbidden|] == LiteForbidden;
    var k := StripShape(d);
    var r := Strip(d);
    forall i | 0 <= i < |r| ensures r[i] !in LiteForbidden {
      assert r[i] == d[k + i];
    }
    if (forall i :: 0 <= i < |name| ==> name[i] !in LiteForbidden) && (name == [] || (!IsSpace(name[0]) && !IsSpace(name[|name| - 1]))) {
      assert d == name;
    }
  }

  /** The cleaned name is the name without its leading and trailing
      whitespace, each forbidden character replaced by '-' in its place. */
  lemma LiteCleanNamePlaces(name: string)
    ensures var r := LiteCleanName(name);
      var k := |name| - |StripLeft(name)|;
      && k + |r| <= |name|
      && AllSpace(name[..k]) && AllSpace(name[k + |r|..])
      && (forall i :: 0 <= i < |r| ==> r[i] == Dash(name[k + i]))
  {
    var d := DashedUpTo(name, |LiteForbidden|);
    DashedShape(name);
    var k := StripSameSpaces(d, name);
    DashedSlice(d, name, k, Strip(d));
  }

  lemma DashedSlice(d: string, name: string, k: nat, r: string)
    requires |d| == |name| && forall i :: 0 <= i < |d| ==> d[i] == Dash(name[i])
    requires k + |r| <= |d| && r == d[k..k + |r|]
    ensures forall i :: 0 <= i < |r| ==> r[i] == Dash(name[k + i])
  {
    forall i | 0 <= i < |r|
      ensures r[i] == Dash(name[k + i])
    {
      assert r[i] == d[k + i];
    }
  }

  lemma {:induction false} LiteCleanNameIdempotent(name: string)
    ensures LiteCleanName(LiteCleanName(name)) == LiteCleanName(name)
  {
    LiteCleanNameSpec(name);
    LiteCleanNameSpec(LiteCleanName(name));
  }

  // ---------------------------------------------------------------------------
  // `listar_arquivos`

  /** Python's `a <= b` on strings: code-point lexicographic order. */
  predicate Below(a: string, b: string)
  {
    a == [] || (b != [] && (a[0] < b[0] || (a[0] == b[0] && Below(a[1..], b[1..]))))
  }

  lemma {:induction false} BelowTotal(a: string, b: string)
    ensures Below(a, b) || Below(b, a)
  {
    if a != [] && b != [] && a[0] == b[0] {
      BelowTotal(a[1..], b[1..]);
    }
  }

  /** Each name is at most the next one. */
  predicate Sorted(s: seq<string>)
  {
    forall i :: 0 <= i < |s| - 1 ==> Below(s[i], s[i + 1])
  }

  function Insert(x: string, s: seq<string>): (r: seq<string>)
    requires Sorted(s)
    ensures Sorted(r) && multiset(r) == multiset(s) + multiset{x}
    ensures r != [] && (r[0] == x || (s != [] && r[0] == s[0]))
  {
    if s == [] then [x]
    else if Below(x, s[0]) then [x] + s
    else
      BelowTotal(x, s[0]);
      var t := Insert(x, s[1..]);
      assert s == [s[0]] + s[1..];
      [s[0]] + t
  }

  /** Python's `sorted` on names: the same names in ascending order. */
  function Sort(s: seq<string>): (r: seq<string>)
    ensures Sorted(r) && multiset(r) == multiset(s)
  {
    if s == [] then []
    else
      assert s == [s[0]] + s[1..];
      Insert(s[0], Sort(s[1..]))
  }

  /** `not extensoes or os.path.splitext(item)[1].lower() in extensoes`; an
      empty list stands for no filter. */
  predicate Accepted(extensions: seq<string>, item: string)
  {
    extensions == [] || Lower(SplitExt(item).1) in extensions
  }

  /** The listed names that are regular files and pass the filter, in
      listing order. */
  function Selected(items: seq<string>, isFile: string -> bool, dir: string, extensions: seq<string>): (r: seq<string>)
  {
    if items == [] then []
    else
      var last := items[|items| - 1];
      Selected(items[..|items| - 1], isFile, dir, extensions)
      + (if isFile(JoinPath(dir, last)) && Accepted(extensions, last) then [last] else [])
  }

  lemma {:induction false} SelectedMembers(items: seq<string>, isFile: string -> bool, dir: string, extensions: seq<string>, x: string)
    ensures x in Selected(items, isFile, dir, extensions) <==> x in items && isFile(JoinPath(dir, x)) && Accepted(extensions, x)
  {
    if items != [] {
      var init := items[..|items| - 1];
      SelectedMembers(init, isFile, dir, extensions, x);
      assert items == init + [items[|items| - 1]];
    }
  }

  /** `listar_arquivos`. `listing` is what `os.listdir` returns, None when
      it raises; `isFile` stands for `os.path.isfile`. The result is sorted
      and holds exactly the listed regular files that pass the filter. */
  method ListFiles(listing: Option<seq<string>>, isFile: string -> bool, dir: string, extensions: seq<string>)
    returns (files: seq<string>)
    ensures Sorted(files)
    ensures multiset(files) == multiset(if listing.Some? then Selected(listing.value, isFile, dir, extensions) else [])
    ensures forall x :: x in files <==> listing.Some? && x in listing.value && isFile(JoinPath(dir, x)) && Accepted(extensions, x)
  {
    var found: seq<string> := [];
    if listing.Some? {
      var items := listing.value;
      var i := 0;
      while i < |items|
        invariant i <= |items| && found == Selected(items[..i], isFile, dir, extensions)
      {
        SelectedStep(items, i, isFile, dir, extensions);
        if isFile(JoinPath(dir, items[i])) && Accepted(extensions, items[i]) {
          found := found + [items[i]];
        }
        i := i + 1;
      }
      assert items[..i] == items;
    }
    files := Sort(found);
    PermutedSelection(files, if listing.Some? then listing.value else [], isFile, dir, extensions);
  }

  /** One more item considered by the selection loop. */
  lemma SelectedStep(items: seq<string>, i: nat, isFile: string -> bool, dir: string, extensions: seq<string>)
    requires i < |items|
    ensures Selected(items[..i + 1], isFile, dir, extensions)
         == Selected(items[..i], isFile, dir, extensions)
            + (if isFile(JoinPath(dir, items[i])) && Accepted(extensions, items[i]) then [items[i]] else [])
  {
    assert items[..i + 1][..i] == items[..i];
  }

  /** Any permutation of the selection holds exactly the selected items. */
  lemma PermutedSelection(files: seq<string>, items: seq<string>, isFile: string -> bool, dir: string, extensions: seq<string>)
    requires multiset(files) == multiset(Selected(items, isFile, dir, extensions))
    ensures forall x :: x in files <==> x in items && isFile(JoinPath(dir, x)) && Accepted(extensions, x)
  {
    forall x ensures x in files <==> x in items && isFile(JoinPath(dir, x)) && Accepted(extensions, x) {
      assert x in files <==> x in multiset(files);
      assert x in Selected(items, isFile, dir, extensions) <==> x in multiset(Selected(items, isFile, dir, extensions));
      SelectedMembers(items, isFile, dir, extensions, x);
    }
  }

  // ---------------------------------------------------------------------------
  // `verificar_e_corrigir_arquivo`

  const FormattedSuffix: string := "_formatado"

  /** `base + "_formatado" + ext`. */
  function FormattedPath(path: string): string
  {
    var (base, ext) := SplitExt(path);
    base + FormattedSuffix + ext
  }

  /** `verificar_e_corrigir_arquivo`. `decode` stands for reading the file as
      UTF-8 (None when that raises), `improve` for `melhorar_texto_corrigido`
      and `canWrite` for whether opening the new path for writing succeeds.
      Returns the path to use and the new disk. */
  function VerifyAndFix(path: string, decode: seq<byte> -> Option<string>, improve: string -> string,
                        canWrite: string -> bool, disk: Disk): (string, Disk)
  {
    var (base, ext) := SplitExt(path);
    if EndsWith(base, FormattedSuffix) then (path, disk)
    else if path !in disk then (path, disk)
    else match decode(disk[path])
      case None => (path, disk)
      case Some(text) =>
        var target := base + FormattedSuffix + ext;
        if !canWrite(target) then (path, disk) else (target, disk[target := Utf8(improve(text))])
  }

  /** A path whose stem already ends in `_formatado` is returned as it is;
      otherwise the result is either the original path with the disk
      untouched (the read or the write failed) or the formatted path, which
      then holds the improved text and is the only file written. */
  lemma {:induction false} VerifyAndFixOutcome(path: string, decode: seq<byte> -> Option<string>, improve: string -> string,
                            canWrite: string -> bool, disk: Disk)
    ensures var (p, d) := VerifyAndFix(path, decode, improve, canWrite, disk);
      && (EndsWith(SplitExt(path).0, FormattedSuffix) ==> p == path && d == disk)
      && (p == path ==> d == disk)
      && (p != path ==>
            p == FormattedPath(path) && path in disk && decode(disk[path]).Some?
            && d == disk[p := Utf8(improve(decode(disk[path]).value))])
  {
  }

  /** The formatted path is recognised as formatted: running the rule on
      its own result changes nothing. */
  lemma {:induction false} VerifyAndFixSettles(path: string, decode: seq<byte> -> Option<string>, improve: string -> string,
                            canWrite: string -> bool, disk: Disk)
    ensures var r := VerifyAndFix(path, decode, improve, canWrite, disk);
      VerifyAndFix(r.0, decode, improve, canWrite, r.1) == r
  {
    var (base, ext) := SplitExt(path);
    var r := VerifyAndFix(path, decode, improve, canWrite, disk);
    if r.0 != path {
      SplitExtInsert(path, FormattedSuffix);
      assert SplitExt(r.0).0 == base + FormattedSuffix;
      assert EndsWith(base + FormattedSuffix, FormattedSuffix);
    }
  }
}
