/** The file browser's view of the file system: which nodes of a directory
    listing are shown, and which icon each shown node gets. */
module FileHandler {
  import opened Wrappers

  /** A node of the directory listing. */
  datatype Node = Node(name: string, isFile: bool)

  /** What the browser asks of the rest of the program about a name: whether
      the file is an archive, its extension, and the icon name of the format
      plugin registered for an extension (`None` when there is no plugin). */
  datatype Lookup = Lookup(
    isArchive: string -> bool,
    extension: string -> string,
    pluginIcon: string -> Option<string>)

  const FOLDER_ICON := "FBReader/folder"
  const ZIPFOLDER_ICON := "FBReader/zipfolder"
  const UNKNOWN_ICON := "FBReader/unknown"

  predicate HasPlugin(name: string, lookup: Lookup)
  {
    lookup.pluginIcon(lookup.extension(name)).Some?
  }

  /** `isNodeVisible`. */
  predicate IsNodeVisible(node: Node, lookup: Lookup)
  {
    if |node.name| == 0 then false
    else if node.name[0] == '.' then !node.isFile && node.name == ".."
    else !node.isFile || lookup.isArchive(node.name) || HasPlugin(node.name, lookup)
  }

  /** `pixmapName`. */
  function PixmapName(node: Node, lookup: Lookup): string
  {
    if !node.isFile then FOLDER_ICON
    else if lookup.isArchive(node.name) then ZIPFOLDER_ICON
    else
      match lookup.pluginIcon(lookup.extension(node.name))
      case Some(icon) => icon
      case None => UNKNOWN_ICON
  }

  lemma EmptyNameIsHidden(node: Node, lookup: Lookup)
    requires node.name == ""
    ensures !IsNodeVisible(node, lookup)
  {
  }

  /** Of the names starting with a dot only the parent directory ".." is
      shown: "." and hidden files and directories are not. */
  lemma DotNamesHiddenButParent(node: Node, lookup: Lookup)
    requires |node.name| > 0 && node.name[0] == '.'
    ensures IsNodeVisible(node, lookup) <==> !node.isFile && node.name == ".."
  {
  }

  /** Every other directory is shown; every other file is shown exactly when
      it is an archive or some plugin reads its extension. */
  lemma OtherNamesVisibility(node: Node, lookup: Lookup)
    requires |node.name| > 0 && node.name[0] != '.'
    ensures !node.isFile ==> IsNodeVisible(node, lookup)
    ensures node.isFile ==>
      (IsNodeVisible(node, lookup) <==> lookup.isArchive(node.name) || HasPlugin(node.name, lookup))
  {
  }

  /** Directories get the folder icon, whatever their name; archives the
      zip-folder icon; other files their plugin's icon, or the unknown icon
      when no plugin reads them. */
  lemma IconByKind(node: Node, lookup: Lookup)
    ensures !node.isFile ==> PixmapName(node, lookup) == FOLDER_ICON
    ensures node.isFile && lookup.isArchive(node.name) ==> PixmapName(node, lookup) == ZIPFOLDER_ICON
    ensures node.isFile && !lookup.isArchive(node.name) && HasPlugin(node.name, lookup) ==>
      PixmapName(node, lookup) == lookup.pluginIcon(lookup.extension(node.name)).value
    ensures node.isFile && !lookup.isArchive(node.name) && !HasPlugin(node.name, lookup) ==>
      PixmapName(node, lookup) == UNKNOWN_ICON
  {
  }

  /** Visibility and icon agree: a shown file never falls back to the
      unknown icon but gets the zip-folder icon or its plugin's icon, and a
      file that falls back to the unknown icon is never shown. */
  lemma VisibleFilesHaveKnownIcons(node: Node, lookup: Lookup)
    requires node.isFile
    ensures IsNodeVisible(node, lookup) ==>
      PixmapName(node, lookup) == ZIPFOLDER_ICON ||
      (HasPlugin(node.name, lookup) && PixmapName(node, lookup) == lookup.pluginIcon(lookup.extension(node.name)).value)
    ensures !lookup.isArchive(node.name) && !HasPlugin(node.name, lookup) ==>
      PixmapName(node, lookup) == UNKNOWN_ICON && !IsNodeVisible(node, lookup)
  {
  }

  /** A shown directory is the parent directory or has a name that does not
      start with a dot; it always gets the folder icon. */
  lemma VisibleDirectories(node: Node, lookup: Lookup)
    requires !node.isFile
    ensures IsNodeVisible(node, lookup) <==> node.name == ".." || (|node.name| > 0 && node.name[0] != '.')
    ensures PixmapName(node, lookup) == FOLDER_ICON
  {
  }
}
