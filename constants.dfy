/** The wire-format constants shared by the command encoders. */
module Constants {

  /** Every command line starts with this scheme. */
  const CmdPrefix: string := "heos://"

  /** Every command line ends with a real carriage return and line feed. */
  const CmdPostfix: string := "\r\n"
}
