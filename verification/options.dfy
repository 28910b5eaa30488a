/** A value that may be absent: used for C's NULL results (a strtok that finds
    no token, a section lookup that finds nothing, an sscand that rejects). */
module Options {

  datatype Option<+T> = None | Some(value: T)

}
