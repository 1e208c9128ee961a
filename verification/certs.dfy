/**
 * `getCertFilePath`: where a TLS certificate named in the configuration lives.  A
 * plain name is used as it is, `file:<path>` names a path, and `b64enc:<data>` means the
 * decoded certificate is found under the config mount point's `certs` directory.
 */
module Certs {
  import opened Wrappers
  import opened Strings

  function GetCertFilePath(configMountPoint: string, certFile: string, fileName: string): (r: Result<string>)
    ensures certFile == "" ==> r.Failure?
  {
    if certFile == "" then Failure("certificate file name empty")
    else
      var parts := Split(certFile, ':');
      if |parts| == 1 then Success(certFile)
      else if |parts| == 2 then
        if parts[0] == "file" then Success(parts[1])
        else if parts[0] == "b64enc" then Success(configMountPoint + "/certs/" + fileName)
        else Failure("Invalid option while parsing cert file: " + parts[0])
      else Failure("Unable to parse cert file: " + certFile)
  }

  /** The path a `b64enc:` certificate is decoded to. */
  function DecodedPath(configMountPoint: string, fileName: string): string {
    configMountPoint + "/certs/" + fileName
  }

  /**
   * With exactly one colon, the option before it decides: `file` gives the text after
   * it, `b64enc` the decoded path, and anything else is an error.
   */
  lemma OneColon(configMountPoint: string, option: string, value: string, fileName: string)
    requires ':' !in option && ':' !in value
    ensures var r := GetCertFilePath(configMountPoint, option + [':'] + value, fileName);
      if option == "file" then r == Success(value)
      else if option == "b64enc" then r == Success(DecodedPath(configMountPoint, fileName))
      else r.Failure?
  {
    SplitAppend(option, ':', value);
    SplitAbsent(option, ':');
    SplitAbsent(value, ':');
    assert (option + [':'] + value)[|option|] == ':';
  }

  /** Two or more colons are always an error. */
  lemma ManyColons(configMountPoint: string, certFile: string, fileName: string)
    requires Count(certFile, ':') >= 2
    ensures GetCertFilePath(configMountPoint, certFile, fileName).Failure?
  {
    SplitCount(certFile, ':');
  }

  /** A successful result with a colon in the input came from a `file:` or `b64enc:` option. */
  lemma SuccessOptions(configMountPoint: string, certFile: string, fileName: string)
    requires ':' in certFile
    requires GetCertFilePath(configMountPoint, certFile, fileName).Success?
    ensures exists value :: (':' !in value &&
      (certFile == "file:" + value || certFile == "b64enc:" + value))
  {
    var parts := Split(certFile, ':');
    JoinSplit(certFile, ':');
    SplitCount(certFile, ':');
    CountPresent(certFile, ':');
    assert |parts| == 2;
    assert certFile == parts[0] + [':'] + parts[1];
    var value := parts[1];
    SplitFree(certFile, ':');
    if parts[0] == "file" {
      assert certFile == "file:" + value;
    } else {
      assert certFile == "b64enc:" + value;
    }
  }

  /** A non-empty name without a colon is used as it is. */
  lemma NoColon(configMountPoint: string, certFile: string, fileName: string)
    requires certFile != "" && ':' !in certFile
    ensures GetCertFilePath(configMountPoint, certFile, fileName) == Success(certFile)
  {
    SplitAbsent(certFile, ':');
  }
}
