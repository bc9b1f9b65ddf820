/** Which registry names are usable as distributions (crates/fsw-path/src/lib.rs). */
module DistributionNames {
  import opened Ascii

  predicate IsForbiddenChar(c: char) {
    IsControl(c) || c == '\\' || c == '/' || c == ':'
  }

  /** is_valid_distribution_name. */
  predicate IsValidDistributionName(name: string) {
    name != "" && name != "." && name != ".." && forall i :: 0 <= i < |name| ==> !IsForbiddenChar(name[i])
  }
}
