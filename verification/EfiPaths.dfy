/** `efi.py`: paths on the EFI system partition in the firmware's notation and back. */
module EfiPaths {
  import opened Seqs
  import opened Strings
  import opened Paths

  const EFI_MOUNTPOINT := "/boot/efi/"
  const EFI_PREFIX := "/boot/efi"

  /** `canonical_path_to_efi_format` */
  function CanonicalToEfi(path: string): string {
    ReplaceChar(Replace(path, EFI_PREFIX, ""), '/', '\\')
  }

  /** `EFIBootLoaderEntry._efi_path_to_canonical` */
  function EfiToCanonical(efiPath: string): string {
    PathJoin(EFI_MOUNTPOINT, LStrip(ReplaceChar(efiPath, '\\', '/'), IsSlash))
  }

  lemma SlashesBack(t: string)
    ensures ReplaceChar(ReplaceChar(t, '/', '\\'), '\\', '/') == ReplaceChar(t, '\\', '/')
  {
  }

  lemma PrefixIsDeleted(r: string)
    ensures Replace(EFI_MOUNTPOINT + r, EFI_PREFIX, "") == Replace("/" + r, EFI_PREFIX, "")
  {
    var path := EFI_MOUNTPOINT + r;
    assert EFI_MOUNTPOINT == EFI_PREFIX + "/";
    Associative(EFI_PREFIX, "/", r);
    assert path[|EFI_PREFIX|..] == "/" + r;
    assert EFI_PREFIX <= path;
    AppendNil(Replace("/" + r, EFI_PREFIX, ""));
  }

  /** What comes back for a path below the mount point. */
  lemma ThereAndBack(r: string)
    ensures var t := Replace("/" + r, EFI_PREFIX, "");
            EfiToCanonical(CanonicalToEfi(EFI_MOUNTPOINT + r))
            == EFI_MOUNTPOINT + LStrip(ReplaceChar(t, '\\', '/'), IsSlash)
  {
    hide Replace, ReplaceChar;
    PrefixIsDeleted(r);
    SlashesBack(Replace("/" + r, EFI_PREFIX, ""));
  }

  /** The two conversions are inverse on a path below the mount point exactly when the rest has
    * no leading slash, no backslash, and does not spell the mount point again.
    */
  lemma ConversionInvertibleIff(r: string)
    ensures EfiToCanonical(CanonicalToEfi(EFI_MOUNTPOINT + r)) == EFI_MOUNTPOINT + r <==>
              (r == "" || r[0] != '/') && '\\' !in r && !Contains("/" + r, EFI_PREFIX)
  {
    hide Replace, EfiToCanonical, CanonicalToEfi, Contains;
    var s := "/" + r;
    var t := Replace(s, EFI_PREFIX, "");
    var back := ReplaceChar(t, '\\', '/');
    var u := LStrip(back, IsSlash);
    ThereAndBack(r);
    CancelMountpoint(u, r);
    DeleteShrinks(s, EFI_PREFIX);
    if u == r {
      BackslashesGone(back, t);
    }
    if (r == "" || r[0] != '/') && '\\' !in r && !Contains(s, EFI_PREFIX) {
      ReplaceAbsent(s, EFI_PREFIX, "");
      assert back == s;
      TailOfCons('/', r);
      assert LStrip(s, IsSlash) == LStrip(r, IsSlash) == r;
    }
  }

  lemma CancelMountpoint(u: string, r: string)
    ensures EFI_MOUNTPOINT + u == EFI_MOUNTPOINT + r <==> u == r
  {
    assert u == (EFI_MOUNTPOINT + u)[|EFI_MOUNTPOINT|..];
    assert r == (EFI_MOUNTPOINT + r)[|EFI_MOUNTPOINT|..];
  }

  lemma BackslashesGone(back: string, t: string)
    requires back == ReplaceChar(t, '\\', '/')
    ensures '\\' !in LStrip(back, IsSlash)
  {
    var pre := LStripSpec(back, IsSlash);
    assert '\\' !in back;
  }

  /** Corollary in the direction the upgrade relies on. */
  lemma ConversionRoundTrip(r: string)
    requires r == "" || r[0] != '/'
    requires '\\' !in r && !Contains("/" + r, EFI_PREFIX)
    ensures EfiToCanonical(CanonicalToEfi(EFI_MOUNTPOINT + r)) == EFI_MOUNTPOINT + r
  {
    ConversionInvertibleIff(r);
  }

  /** What the firmware gets to see: a path below the mount point becomes one backslash and the rest
    * with its slashes turned.
    */
  lemma FirmwareForm(r: string)
    requires !Contains("/" + r, EFI_PREFIX)
    ensures var e := CanonicalToEfi("/boot/efi/" + r);
            && |e| == |r| + 1 && e[0] == '\\'
            && forall i :: 0 <= i < |r| ==> e[i + 1] == if r[i] == '/' then '\\' else r[i]
  {
    hide Replace;
    PrefixIsDeleted(r);
    ReplaceAbsent("/" + r, EFI_PREFIX, "");
    TailOfCons('/', r);
  }

  /** The documented example. */
  lemma FirmwareFormExample()
    ensures CanonicalToEfi("/boot/efi/" + "EFI/redhat/shimx64.efi") == "\\EFI\\redhat\\shimx64.efi"
  {
    hide Contains, CanonicalToEfi;
    var r := "EFI/redhat/shimx64.efi";
    NoBoot();
    FirmwareForm(r);
    var e := CanonicalToEfi("/boot/efi/" + r);
    var expected := "\\EFI\\redhat\\shimx64.efi";
    forall i | 0 <= i < |e| ensures e[i] == expected[i] {
      if i > 0 { assert e[i] == if r[i - 1] == '/' then '\\' else r[i - 1]; }
    }
  }

  lemma NoBoot()
    ensures !Contains("/" + "EFI/redhat/shimx64.efi", EFI_PREFIX)
  {
    var s := "/" + "EFI/redhat/shimx64.efi";
    if Contains(s, EFI_PREFIX) {
      var before, after := Occurrence(s, EFI_PREFIX);
      assert s[|before| + 1] == (before + EFI_PREFIX + after)[|before| + 1] == EFI_PREFIX[1];
    }
    assert forall i :: 0 <= i < |s| ==> s[i] != EFI_PREFIX[1];
  }

  /** And back: slashes and backslashes in front are one mount point, the others turn. */
  lemma CanonicalForm(lead: string, rest: string)
    requires forall i :: 0 <= i < |lead| ==> lead[i] == '/' || lead[i] == '\\'
    requires rest != "" ==> rest[0] != '/' && rest[0] != '\\'
    ensures var c := EfiToCanonical(lead + rest);
            && |c| == |"/boot/efi/"| + |rest| && "/boot/efi/" <= c
            && forall i :: 0 <= i < |rest| ==> c[|"/boot/efi/"| + i] == if rest[i] == '\\' then '/' else rest[i]
  {
    var turned := ReplaceChar(lead + rest, '\\', '/');
    var a, b := ReplaceChar(lead, '\\', '/'), ReplaceChar(rest, '\\', '/');
    assert turned == a + b;
    assert Only(a, IsSlash);
    LStripPrefix(a, b, IsSlash);
  }
}
