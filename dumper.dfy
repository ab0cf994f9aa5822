/** Package-level configuration of the credential dumper. */
module Dumper {

  /** Operating-system artefacts that are never parsed (dumper/__init__.py).
      Membership is tested on the exact file name, case included. */
  const IgnoredFiles: set<string> := {
    ".DS_Store", "Thumbs.db", "desktop.ini", ".directory", ".Trash-1000",
    ".Spotlight-V100", ".fseventsd", ".TemporaryItems", "$RECYCLE.BIN",
    "System Volume Information"
  }
}
