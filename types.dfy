/** The records exchanged between the harvester and the file reader (types/types.go). */
module Types {

  newtype byte = b: int | 0 <= b < 256

  /** Raw bytes of a response body or of a file. */
  type Bytes = seq<byte>

  /** Contents of the API key configuration file. */
  datatype ApiKey = ApiKey(comment: string, key: string)

  /** One input record: the title, the Internet Archive "details" URL and the OCLC number. */
  datatype Record = Record(title: string, iarchiveId: string, oclc: string)

  /** Something to download for a record; `source` names its kind ("iArchiveFile" or "worldcat"). */
  datatype DataSource = DataSource(file: string, oclcNumber: string, source: string, baseUrl: string)

  /** One line of the audit log. */
  datatype Audit = Audit(
    title: string,
    author: string,
    date: string,
    description: string,
    iarchiveId: string,
    oclcNumber: string,
    outputDirectory: string)

  /** The two keys, "name" and "format", that the harvester reads from an entry of the "files" list of an Internet Archive metadata document. */
  datatype IArchiveFile = IArchiveFile(name: string, format: string)

  /** The "metadata" section of an Internet Archive metadata document. */
  datatype Metadata = Metadata(creator: string, description: string, date: string)

  /** An Internet Archive metadata document that decoded successfully. */
  datatype Doc = Doc(metadata: Metadata, files: seq<IArchiveFile>)
}
