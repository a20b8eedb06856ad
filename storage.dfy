/** The external state the sink touches: the object store behind `S3Client`,
    the local file system and the UUID generator. Each is a class whose
    failures and random choices are fixed by what it is constructed with,
    so that every run of the model is determined by its inputs. */
module Storage {
  import opened Java

  type Path = string

  datatype ObjectId = ObjectId(bucket: string, key: string)

  /** `RequestBody.fromBytes` or `RequestBody.fromFile` (the file's text at upload time). */
  datatype RequestBody = FromBytes(bytes: seq<JByte>) | FromFile(text: string)

  datatype PutRequest = PutRequest(id: ObjectId, body: RequestBody)

  /** The object store reached through `S3Client.putObject`. The n-th request
      ever made is rejected (AwsServiceException or SdkClientException) exactly
      when `rejects(n)`. */
  class ObjectStore {
    var objects: map<ObjectId, RequestBody>
    var requests: seq<PutRequest>
    const rejects: nat -> bool

    constructor (rejects: nat -> bool)
      ensures objects == map[] && requests == [] && this.rejects == rejects
    {
      objects := map[];
      requests := [];
      this.rejects := rejects;
    }

    /** One `putObject` call; `stored` is false when it throws. */
    method PutObject(bucket: string, key: string, body: RequestBody) returns (stored: bool)
      modifies this
      ensures stored == !rejects(|old(requests)|)
      ensures requests == old(requests) + [PutRequest(ObjectId(bucket, key), body)]
      ensures objects == if stored then old(objects)[ObjectId(bucket, key) := body] else old(objects)
    {
      stored := !rejects(|requests|);
      requests := requests + [PutRequest(ObjectId(bucket, key), body)];
      if stored {
        objects := objects[ObjectId(bucket, key) := body];
      }
    }
  }

  /** What `Files.deleteIfExists` reports: whether a file was removed, or an IOException. */
  datatype Deletion = Deleted(existed: bool) | DeleteFailed

  /** The local file system as text files by path. Creating a file under a
      path in `unwritable`, or deleting one under a path in `undeletable`,
      raises an IOException. */
  class FileStore {
    var files: map<Path, string>
    const unwritable: set<Path>
    const undeletable: set<Path>

    constructor (files: map<Path, string>, unwritable: set<Path>, undeletable: set<Path>)
      ensures this.files == files && this.unwritable == unwritable && this.undeletable == undeletable
    {
      this.files := files;
      this.unwritable := unwritable;
      this.undeletable := undeletable;
    }

    /** `File.length()`: the length of the file, 0 when there is none. */
    function Length(p: Path): (n: nat)
      reads this
      ensures p in files ==> n == |files[p]|
      ensures p !in files ==> n == 0
    {
      if p in files then |files[p]| else 0
    }

    /** `new FileWriter(p)`: creates the file, or empties an existing one. */
    method Create(p: Path) returns (created: bool)
      modifies this
      ensures created == (p !in unwritable)
      ensures files == if created then old(files)[p := ""] else old(files)
    {
      created := p !in unwritable;
      if created {
        files := files[p := ""];
      }
    }

    /** An open writer passing `text` on to the file; lost if the file is gone. */
    method Append(p: Path, text: string)
      modifies this
      ensures files == if p in old(files) then old(files)[p := old(files)[p] + text] else old(files)
    {
      if p in files {
        files := files[p := files[p] + text];
      }
    }

    /** `Files.deleteIfExists(p)`. */
    method DeleteIfExists(p: Path) returns (r: Deletion)
      modifies this
      ensures p in undeletable ==> r == DeleteFailed && files == old(files)
      ensures p !in undeletable ==> r == Deleted(p in old(files)) && files == old(files) - {p}
    {
      if p in undeletable {
        r := DeleteFailed;
      } else {
        r := Deleted(p in files);
        files := files - {p};
      }
    }
  }

  /** `UUID.randomUUID()`: the n-th draw yields `draws(n)`. */
  class UuidSource {
    const draws: nat -> string
    var taken: nat

    constructor (draws: nat -> string)
      ensures this.draws == draws && taken == 0
    {
      this.draws := draws;
      taken := 0;
    }

    method RandomUuid() returns (u: string)
      modifies this
      ensures u == draws(old(taken)) && taken == old(taken) + 1
    {
      u := draws(taken);
      taken := taken + 1;
    }
  }
}
