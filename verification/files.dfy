/** The local filesystem as the readers see it: a map from a path to the
    bytes of the file there. A path that is not a key is a file that does
    not exist. */
module Files {
  type Bytes = seq<bv8>
  type FileSystem = map<string, Bytes>
}
