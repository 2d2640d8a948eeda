TestResult.DisplayName,TestResult.Outcome,TestResult.Duration,TestResult.ResourceCount,RandomSeed
NtpServer.Reply (well-formedness),Passed,00:00:00.3606899,1221036,2
NtpServer.Respond (well-formedness),Passed,00:00:00.3363838,917436,2
NtpServer.ReplyBytes (well-formedness),Passed,00:00:00.2196016,649449,2
NtpServer.RunSendsAnswers (correctness),Failed,00:00:00.2147576,2227965,2
NtpServer.Step (well-formedness),Passed,00:00:00.2090837,236930,2
NtpServer.ClientReadsReplyLayout (correctness),Passed,00:00:00.1870791,838395,2
NtpServer.Feasible (well-formedness),Passed,00:00:00.1768637,227932,2
NtpServer.ReplyPacket (well-formedness),Passed,00:00:00.1668645,68260,2
NtpServer.ReplyLayoutBytes (correctness),Passed,00:00:00.1605634,460787,2
NtpServer.OnReceiveData (well-formedness),Passed,00:00:00.1458635,216512,2
NtpServer.Run (well-formedness),Passed,00:00:00.1417569,238071,2
NtpServer.AtomicStartsKeepListening (correctness),Passed,00:00:00.1357622,331738,2
NtpServer.StartRaceLosesListening (correctness),Passed,00:00:00.1346383,303476,2
NtpServer.ClientReadsReply (well-formedness),Passed,00:00:00.1263931,295336,2
NtpServer.ReplyParsesBack (correctness),Passed,00:00:00.1212054,309337,2
NtpServer.DeafUntilRestarted (correctness),Passed,00:00:00.1208365,303274,2
NtpServer.StartRaceLosesListening (well-formedness),Passed,00:00:00.1201454,233264,2
NtpServer.Answers (well-formedness),Passed,00:00:00.1168179,204132,2
NtpServer.ClientReadsReplyLayout (well-formedness),Passed,00:00:00.1151842,200638,2
NtpServer.RunKeepsListening (correctness),Passed,00:00:00.1125698,246575,2
NtpServer.WorkingServerRearms (correctness),Passed,00:00:00.1110132,281782,2
NtpServer.ClientReadsReply (correctness),Passed,00:00:00.1108620,265796,2
NtpServer.RunKeepsListening (well-formedness),Passed,00:00:00.1101109,228584,2
NtpServer.EventKeepsListening (well-formedness),Passed,00:00:00.1082868,225653,2
NtpServer.DeafUntilRestarted (well-formedness),Passed,00:00:00.1076502,230914,2
NtpServer.AtomicStartsKeepListening (well-formedness),Passed,00:00:00.1068984,232456,2
NtpServer.CompletionStep (correctness),Passed,00:00:00.1050504,229981,2
NtpServer.WorkingServerRearms (well-formedness),Passed,00:00:00.1049969,229989,2
NtpServer.StoppedServerBound (well-formedness),Passed,00:00:00.1040048,224130,2
NtpServer.RunSendsAnswers (well-formedness),Passed,00:00:00.1012615,229478,2
NtpServer.StoppedServerDrains (well-formedness),Passed,00:00:00.0993490,230699,2
NtpServer.ReplyDependsOnlyOnTransmit (well-formedness),Passed,00:00:00.0791787,186218,2
NtpServer.EventKeepsListening (correctness),Passed,00:00:00.0787549,241731,2
NtpServer.StoppedServerDrains (correctness),Passed,00:00:00.0782124,288915,2
NtpServer.ReplyBody (well-formedness),Passed,00:00:00.0777783,18373,2
NtpServer.CompletionStep (well-formedness),Passed,00:00:00.0774582,223866,2
NtpServer.ReplyDependsOnlyOnTransmit (correctness),Passed,00:00:00.0770718,221348,2
NtpServer.ReplyBytes (correctness),Passed,00:00:00.0715781,202173,2
NtpServer.StoppedServerBound (correctness),Passed,00:00:00.0679761,236045,2
NtpServer.ReplyParsesBack (well-formedness),Passed,00:00:00.0650936,185548,2
NtpServer.TransmitBytes (well-formedness),Passed,00:00:00.0425448,32493,2
NtpServer.ReplyPacketHeader (correctness),Passed,00:00:00.0398771,135125,2
NtpServer.TransmitBytes (correctness),Passed,00:00:00.0393353,166702,2
NtpServer.ReplyLayoutBytes (well-formedness),Passed,00:00:00.0185243,55926,2
NtpServer.StartFirstHalf (well-formedness),Passed,00:00:00.0164394,18489,2
NtpServer.AtomicStarts (well-formedness),Passed,00:00:00.0159893,13404,2
NtpServer.ZeroField16 (well-formedness),Passed,00:00:00.0158996,9672,2
NtpServer.StartSecondHalf (well-formedness),Passed,00:00:00.0153834,18912,2
NtpServer.Start (well-formedness),Passed,00:00:00.0137518,25810,2
NtpServer.Initial (well-formedness),Passed,00:00:00.0127427,3717,2
NtpServer.Stop (well-formedness),Passed,00:00:00.0097610,9803,2
NtpServer.Rearm (well-formedness),Passed,00:00:00.0082934,15136,2
NtpServer.ZeroField16 (correctness),Passed,00:00:00.0072511,9930,2
